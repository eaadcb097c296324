/** The hash preimage of a block and the segment sums of its content. */
module Encoding {
  import opened Bytes
  import opened Curve
  import opened Modular

  /** The value of a VersionedBlockMetadata object: what tags and challenges copy. */
  datatype Metadata = Metadata(version: uint64, timestamp: uint64)

  const SEGMENT_SIZE: nat := 32

  const METADATA_SIZE: nat := 16

  function SerializeMetadata(m: Metadata): (b: ByteString)
    ensures |b| == METADATA_SIZE
  {
    ToLittleEndian(m.version, 8) + ToLittleEndian(m.timestamp, 8)
  }

  function DeserializeMetadata(b: ByteString): Metadata
    requires |b| == METADATA_SIZE
  {
    LittleEndianBound(b[..8]);
    LittleEndianBound(b[8..]);
    Pow256Of8();
    Metadata(LittleEndian(b[..8]), LittleEndian(b[8..]))
  }

  lemma MetadataRoundTrip(m: Metadata)
    ensures DeserializeMetadata(SerializeMetadata(m)) == m
  {
    Pow256Of8();
    LittleEndianRoundTrip(m.version, 8);
    LittleEndianRoundTrip(m.timestamp, 8);
    assert SerializeMetadata(m)[..8] == ToLittleEndian(m.version, 8);
    assert SerializeMetadata(m)[8..] == ToLittleEndian(m.timestamp, 8);
  }

  /** The byte string that is hashed to the curve for a block. */
  function Preimage(fileId: ByteString, blockIndex: uint64, m: Metadata): ByteString {
    fileId + ToBigEndian(blockIndex, 8) + SerializeMetadata(m)
  }

  datatype HashedBlock = HashedBlock(fileId: ByteString, blockIndex: uint64, metadata: Metadata)

  /** Reads a preimage from its end: the last 24 bytes have fixed widths. */
  function ParsePreimage(data: ByteString): HashedBlock
    requires |data| >= 24
  {
    var cut := |data| - 24;
    BigEndianBound(data[cut..cut + 8]);
    Pow256Of8();
    HashedBlock(data[..cut], BigEndian(data[cut..cut + 8]), DeserializeMetadata(data[cut + 8..]))
  }

  lemma ParseInvertsPreimage(fileId: ByteString, blockIndex: uint64, m: Metadata)
    ensures |Preimage(fileId, blockIndex, m)| == |fileId| + 24
    ensures ParsePreimage(Preimage(fileId, blockIndex, m)) == HashedBlock(fileId, blockIndex, m)
  {
    var data := Preimage(fileId, blockIndex, m);
    var cut := |fileId|;
    assert data[..cut] == fileId;
    assert data[cut..cut + 8] == ToBigEndian(blockIndex, 8);
    assert data[cut + 8..] == SerializeMetadata(m);
    Pow256Of8();
    BigEndianRoundTrip(blockIndex, 8);
    MetadataRoundTrip(m);
  }

  /** Two blocks share a preimage only when file, index, version and timestamp all agree,
      even though the file identifier has no length prefix. */
  lemma PreimageInjective(f: ByteString, i: uint64, m: Metadata, f': ByteString, i': uint64, m': Metadata)
    ensures Preimage(f, i, m) == Preimage(f', i', m') <==> f == f' && i == i' && m == m'
  {
    ParseInvertsPreimage(f, i, m);
    ParseInvertsPreimage(f', i', m');
  }

  lemma Regroup(a: nat, b: nat, q: nat, r: nat, p: nat)
    requires a == q * 256 + r && r < 256 && b < p
    ensures a * p + b == q * (256 * p) + (r * p + b)
    ensures 0 <= r * p + b < 256 * p
  {
    assert a * p == q * 256 * p + r * p;
    assert r * p <= 255 * p;
  }

  lemma DivideTwice(x: nat, p: nat)
    requires p > 0
    ensures x / p / 256 == x / (256 * p)
  {
    var a, b := x / p, x % p;
    DivMod(x, p);
    Regroup(a, b, a / 256, a % 256, p);
    UniqueDivision(x, a / 256, a % 256 * p + b, 256 * p);
  }

  lemma UniqueDivision(x: int, q: int, r: int, n: int)
    requires n > 0 && x == q * n + r && 0 <= r < n
    ensures x / n == q
  {
    DivMod(x, n);
    UniqueRemainder(x, q, r, n);
    assert (x / n - q) * n == 0;
    AtLeastOneMultiple(x / n - q, n);
    AtLeastOneMultiple(q - x / n, n);
  }

  /** Appends the file, the index from its most significant byte down, and the metadata. */
  method HashedBytes(fileId: ByteString, blockIndex: uint64, m: Metadata) returns (data: ByteString)
    ensures data == Preimage(fileId, blockIndex, m)
  {
    data := fileId;
    var i := 8;
    Pow256Of8();
    while i > 0
      invariant 0 <= i <= 8
      invariant data == fileId + ToBigEndian(blockIndex / Pow256(i), 8 - i)
    {
      i := i - 1;
      var shifted := blockIndex / Pow256(i);
      DivideTwice(blockIndex, Pow256(i));
      assert ToBigEndian(shifted, 8 - i) == ToBigEndian(shifted / 256, 7 - i) + [shifted % 256];
      data := data + [shifted % 256];
    }
    assert blockIndex / Pow256(0) == blockIndex;
    data := data + SerializeMetadata(m);
  }

  method ComputeBlockHash(c: Curve, fileId: ByteString, blockIndex: uint64, m: Metadata) returns (h: G1)
    ensures h == HashToCurve(c, Preimage(fileId, blockIndex, m))
    ensures var i, v, t := blockIndex, m.version, m.timestamp;
            h == c.hash(fileId
                        + [i / 0x100_0000_0000_0000 % 256, i / 0x1_0000_0000_0000 % 256, i / 0x100_0000_0000 % 256,
                           i / 0x1_0000_0000 % 256, i / 0x100_0000 % 256, i / 0x1_0000 % 256, i / 256 % 256, i % 256]
                        + [v % 256, v / 256 % 256, v / 0x1_0000 % 256, v / 0x100_0000 % 256,
                           v / 0x1_0000_0000 % 256, v / 0x100_0000_0000 % 256, v / 0x1_0000_0000_0000 % 256,
                           v / 0x100_0000_0000_0000 % 256]
                        + [t % 256, t / 256 % 256, t / 0x1_0000 % 256, t / 0x100_0000 % 256,
                           t / 0x1_0000_0000 % 256, t / 0x100_0000_0000 % 256, t / 0x1_0000_0000_0000 % 256,
                           t / 0x100_0000_0000_0000 % 256]) % c.n
  {
    var data := HashedBytes(fileId, blockIndex, m);
    h := HashToCurve(c, data);
    PreimageBytes(fileId, blockIndex, m);
  }

  /** The layout of the preimage, byte by byte: the index from its top byte down, then version
      and timestamp from their low bytes up. */
  lemma PreimageBytes(fileId: ByteString, i: uint64, m: Metadata)
    ensures var v, t := m.version, m.timestamp;
            Preimage(fileId, i, m)
              == fileId
                 + [i / 0x100_0000_0000_0000 % 256, i / 0x1_0000_0000_0000 % 256, i / 0x100_0000_0000 % 256,
                    i / 0x1_0000_0000 % 256, i / 0x100_0000 % 256, i / 0x1_0000 % 256, i / 256 % 256, i % 256]
                 + [v % 256, v / 256 % 256, v / 0x1_0000 % 256, v / 0x100_0000 % 256,
                    v / 0x1_0000_0000 % 256, v / 0x100_0000_0000 % 256, v / 0x1_0000_0000_0000 % 256,
                    v / 0x100_0000_0000_0000 % 256]
                 + [t % 256, t / 256 % 256, t / 0x1_0000 % 256, t / 0x100_0000 % 256,
                    t / 0x1_0000_0000 % 256, t / 0x100_0000_0000 % 256, t / 0x1_0000_0000_0000 % 256,
                    t / 0x100_0000_0000_0000 % 256]
  {
    HighBytesFirst(i);
    LowBytesFirst(m.version);
    LowBytesFirst(m.timestamp);
    assert Preimage(fileId, i, m)
        == fileId + ToBigEndian(i, 8) + ToLittleEndian(m.version, 8) + ToLittleEndian(m.timestamp, 8);
  }

  // ── Segment sums ──

  /** The exact sum of the 32-byte little-endian segments of a block, the last one short. */
  function SegmentSum(block: ByteString): nat {
    if |block| <= SEGMENT_SIZE then LittleEndian(block)
    else LittleEndian(block[..SEGMENT_SIZE]) + SegmentSum(block[SEGMENT_SIZE..])
  }

  /** Byte i of a block weighs 256^(i mod 32). */
  function Weighted(b: byte, i: nat): nat {
    b * Pow256(i % 32)
  }

  /** What a block is worth, position by position. */
  function WeightedBytes(block: ByteString): nat {
    if block == [] then 0 else WeightedBytes(block[..|block| - 1]) + Weighted(block[|block| - 1], |block| - 1)
  }

  /** A block longer than one segment, without its last byte. */
  lemma FrontOfLongBlock(block: ByteString)
    requires |block| > SEGMENT_SIZE
    ensures var front, rest := block[..|block| - 1], block[SEGMENT_SIZE..];
            SegmentSum(front) == LittleEndian(block[..SEGMENT_SIZE]) + SegmentSum(rest[..|rest| - 1])
  {
    var front, rest := block[..|block| - 1], block[SEGMENT_SIZE..];
    if |front| == SEGMENT_SIZE {
      assert front == block[..SEGMENT_SIZE] && rest[..|rest| - 1] == [];
    } else {
      assert front[..SEGMENT_SIZE] == block[..SEGMENT_SIZE];
      assert front[SEGMENT_SIZE..] == rest[..|rest| - 1];
    }
  }

  lemma SameWeight(b: byte, i: nat)
    requires i >= 32
    ensures Weighted(b, i) == Weighted(b, i - 32)
  {
    assert i % 32 == (i - 32) % 32;
  }

  lemma FirstWeights(b: byte, i: nat)
    requires i < 32
    ensures Weighted(b, i) == b * Pow256(i)
  {
    assert i % 32 == i;
  }

  lemma ShortBlockGrows(block: ByteString)
    requires 0 < |block| <= SEGMENT_SIZE
    ensures SegmentSum(block) == SegmentSum(block[..|block| - 1]) + Weighted(block[|block| - 1], |block| - 1)
  {
    LastByteWeighs(block);
    FirstWeights(block[|block| - 1], |block| - 1);
  }

  lemma {:induction false} SegmentSumGrows(block: ByteString)
    requires block != []
    ensures SegmentSum(block) == SegmentSum(block[..|block| - 1]) + Weighted(block[|block| - 1], |block| - 1)
    decreases |block|
  {
    if |block| <= SEGMENT_SIZE {
      ShortBlockGrows(block);
    } else {
      SegmentSumGrows(block[SEGMENT_SIZE..]);
      FrontOfLongBlock(block);
      SameWeight(block[|block| - 1], |block| - 1);
    }
  }

  /** The segments of the code are 32 bytes long and read from their low byte up. */
  lemma {:induction false} SegmentSumWeighsBytes(block: ByteString)
    ensures SegmentSum(block) == WeightedBytes(block)
  {
    if block == [] {
    } else {
      SegmentSumGrows(block);
      SegmentSumWeighsBytes(block[..|block| - 1]);
    }
  }

  lemma {:induction false} SegmentSumAdditive(x: ByteString, y: ByteString)
    requires |x| % SEGMENT_SIZE == 0
    ensures SegmentSum(x + y) == SegmentSum(x) + SegmentSum(y)
    decreases |x|
  {
    if x == [] {
      assert x + y == y;
    } else if y == [] {
      assert x + y == x;
    } else {
      var rest := x[SEGMENT_SIZE..];
      SegmentSumAdditive(rest, y);
      assert (x + y)[..SEGMENT_SIZE] == x[..SEGMENT_SIZE];
      assert (x + y)[SEGMENT_SIZE..] == rest + y;
      if rest == [] {
        assert x == x[..SEGMENT_SIZE];
      }
    }
  }

  /** Copies each segment into a 32-byte scalar, zero-fills the rest and adds modulo n. */
  method AccumulateBlockSegmentsScalar(c: Curve, block: ByteString) returns (sum: int)
    ensures sum == SegmentSum(block) % c.n
    ensures sum == WeightedBytes(block) % c.n
  {
    var segmentCount := (|block| + SEGMENT_SIZE - 1) / SEGMENT_SIZE;
    sum := 0;
    var j := 0;
    while j < segmentCount
      invariant 0 <= j <= segmentCount
      invariant sum == SegmentSum(block[..if j < segmentCount then j * SEGMENT_SIZE else |block|]) % c.n
    {
      var offset := j * SEGMENT_SIZE;
      var copySize := if SEGMENT_SIZE < |block| - offset then SEGMENT_SIZE else |block| - offset;
      var segment := new byte[SEGMENT_SIZE];
      forall k | 0 <= k < copySize {
        segment[k] := block[offset + k];
      }
      if copySize < SEGMENT_SIZE {
        forall k | copySize <= k < SEGMENT_SIZE {
          segment[k] := 0;
        }
      }
      var bytes := segment[..];
      SegmentValue(block, offset, copySize, bytes);
      ModAdd(SegmentSum(block[..offset]), LittleEndian(bytes), c.n);
      sum := Add(c, sum, LittleEndian(bytes));
      j := j + 1;
    }
    assert block[..|block|] == block;
    SegmentSumWeighsBytes(block);
  }

  lemma SegmentValue(block: ByteString, offset: nat, size: nat, segment: ByteString)
    requires offset % SEGMENT_SIZE == 0 && offset + size <= |block| && size <= SEGMENT_SIZE == |segment|
    requires forall k :: 0 <= k < size ==> segment[k] == block[offset + k]
    requires forall k :: size <= k < SEGMENT_SIZE ==> segment[k] == 0
    ensures SegmentSum(block[..offset + size]) == SegmentSum(block[..offset]) + LittleEndian(segment)
  {
    var piece := block[offset..offset + size];
    assert segment == piece + segment[size..];
    PaddingKeepsValue(piece, segment[size..]);
    assert block[..offset + size] == block[..offset] + piece;
    SegmentSumAdditive(block[..offset], piece);
  }

  /** The documented meaning of the G1 accumulation: one scalar multiplication a segment. */
  function SegmentPointSum(c: Curve, block: ByteString, base: G1): G1 {
    if |block| <= SEGMENT_SIZE then Mul(c, LittleEndian(block), base)
    else Add(c, Mul(c, LittleEndian(block[..SEGMENT_SIZE]), base), SegmentPointSum(c, block[SEGMENT_SIZE..], base))
  }

  /** The code multiplies once by the scalar sum and still gets the sum of points. */
  method AccumulateBlockSegmentsG1(c: Curve, block: ByteString, base: G1) returns (p: G1)
    ensures p == SegmentPointSum(c, block, base)
    ensures p == (SegmentSum(block) * base) % c.n
  {
    var scalarSum := AccumulateBlockSegmentsScalar(c, block);
    p := Mul(c, scalarSum, base);
    ModMul(SegmentSum(block), base, c.n);
    PointSumIsScalarSum(c, block, base);
  }

  lemma DistributeMod(x: int, y: int, base: int, n: int)
    requires n > 0
    ensures (x * base % n + y * base % n) % n == (x + y) * base % n
  {
    ModAdd(x * base, y * base % n, n);
    ModAdd(x * base, y * base, n);
    assert (x + y) * base == x * base + y * base;
  }

  lemma {:induction false} PointSumIsScalarSum(c: Curve, block: ByteString, base: G1)
    ensures SegmentPointSum(c, block, base) == (SegmentSum(block) * base) % c.n
    decreases |block|
  {
    if |block| > SEGMENT_SIZE {
      var first, rest := LittleEndian(block[..SEGMENT_SIZE]), SegmentSum(block[SEGMENT_SIZE..]);
      PointSumIsScalarSum(c, block[SEGMENT_SIZE..], base);
      DistributeMod(first, rest, base, c.n);
    }
  }
}
