/** Machine integers, byte strings and their fixed-width encodings. */
module Bytes {

  const TWO64: int := 0x1_0000_0000_0000_0000

  /** `std::uint64_t`, and `std::size_t` on the supported platforms. */
  type uint64 = x: int | 0 <= x < TWO64

  type byte = x: int | 0 <= x < 256

  type ByteString = seq<byte>

  /** The length of a scalar buffer. */
  const SCALAR_SIZE: nat := 32

  datatype Option<+T> = None | Some(value: T)

  function Pow256(k: nat): (p: nat)
    ensures p > 0
  {
    if k == 0 then 1 else 256 * Pow256(k - 1)
  }

  /** The value of a little-endian byte string. */
  function LittleEndian(b: ByteString): nat {
    if b == [] then 0 else b[0] + 256 * LittleEndian(b[1..])
  }

  function ToLittleEndian(x: nat, k: nat): (b: ByteString)
    ensures |b| == k
  {
    if k == 0 then [] else [x % 256] + ToLittleEndian(x / 256, k - 1)
  }

  /** The value of a big-endian byte string. */
  function BigEndian(b: ByteString): nat {
    if b == [] then 0 else 256 * BigEndian(b[..|b| - 1]) + b[|b| - 1]
  }

  function ToBigEndian(x: nat, k: nat): (b: ByteString)
    ensures |b| == k
  {
    if k == 0 then [] else ToBigEndian(x / 256, k - 1) + [x % 256]
  }

  lemma {:induction false} LittleEndianRoundTrip(x: nat, k: nat)
    requires x < Pow256(k)
    ensures LittleEndian(ToLittleEndian(x, k)) == x
  {
    if k == 0 {
    } else {
      LittleEndianRoundTrip(x / 256, k - 1);
      assert ToLittleEndian(x, k)[1..] == ToLittleEndian(x / 256, k - 1);
    }
  }

  lemma {:induction false} BigEndianRoundTrip(x: nat, k: nat)
    requires x < Pow256(k)
    ensures BigEndian(ToBigEndian(x, k)) == x
  {
    if k == 0 {
    } else {
      BigEndianRoundTrip(x / 256, k - 1);
      assert ToBigEndian(x, k)[..k - 1] == ToBigEndian(x / 256, k - 1);
    }
  }

  lemma {:induction false} LittleEndianBound(b: ByteString)
    ensures LittleEndian(b) < Pow256(|b|)
  {
    if b == [] {
    } else {
      LittleEndianBound(b[1..]);
    }
  }

  lemma {:induction false} BigEndianBound(b: ByteString)
    ensures BigEndian(b) < Pow256(|b|)
  {
    if b == [] {
    } else {
      BigEndianBound(b[..|b| - 1]);
    }
  }

  lemma {:induction false} PaddingKeepsValue(b: ByteString, zeros: ByteString)
    requires forall i :: 0 <= i < |zeros| ==> zeros[i] == 0
    ensures LittleEndian(b + zeros) == LittleEndian(b)
    decreases |b| + |zeros|
  {
    if b == [] && zeros == [] {
    } else if b == [] {
      PaddingKeepsValue([], zeros[1..]);
      assert ([] + zeros)[1..] == [] + zeros[1..];
    } else {
      PaddingKeepsValue(b[1..], zeros);
      assert (b + zeros)[1..] == b[1..] + zeros;
    }
  }

  /** The value of a little-endian byte string is the sum of its bytes at their weights. */
  lemma {:induction false} LastByteWeighs(b: ByteString)
    requires b != []
    ensures LittleEndian(b) == LittleEndian(b[..|b| - 1]) + b[|b| - 1] * Pow256(|b| - 1)
  {
    if |b| == 1 {
      assert b[..0] == [] && b[1..] == [];
    } else {
      LastByteWeighs(b[1..]);
      assert b[1..][..|b| - 2] == b[..|b| - 1][1..];
    }
  }

  lemma {:induction false} ZeroBytes(b: ByteString)
    ensures LittleEndian(b) == 0 <==> forall i :: 0 <= i < |b| ==> b[i] == 0
  {
    if b == [] {
    } else {
      ZeroBytes(b[1..]);
      assert forall i :: 0 <= i < |b| - 1 ==> b[1..][i] == b[i + 1];
    }
  }

  lemma TwoLowBytes(x: nat, k: nat)
    requires k >= 2
    ensures ToLittleEndian(x, k) == [x % 256, x / 256 % 256] + ToLittleEndian(x / 0x1_0000, k - 2)
  {
    assert x / 256 / 256 == x / 0x1_0000;
    assert ToLittleEndian(x / 256, k - 1) == [x / 256 % 256] + ToLittleEndian(x / 256 / 256, k - 2);
  }

  lemma TwoHighBytes(x: nat, k: nat)
    requires k >= 2
    ensures ToBigEndian(x, k) == ToBigEndian(x / 0x1_0000, k - 2) + [x / 256 % 256, x % 256]
  {
    assert x / 256 / 256 == x / 0x1_0000;
    assert ToBigEndian(x / 256, k - 1) == ToBigEndian(x / 256 / 256, k - 2) + [x / 256 % 256];
  }

  lemma Shifts(x: nat)
    ensures x / 0x1_0000 / 0x1_0000 == x / 0x1_0000_0000
    ensures x / 0x1_0000_0000 / 0x1_0000 == x / 0x1_0000_0000_0000
    ensures x / 0x1_0000 / 256 == x / 0x100_0000 && x / 0x1_0000_0000 / 256 == x / 0x100_0000_0000
    ensures x / 0x1_0000_0000_0000 / 256 == x / 0x100_0000_0000_0000
  {
  }

  /** The eight bytes of an integer, from the low byte up. */
  lemma LowBytesFirst(x: uint64)
    ensures ToLittleEndian(x, 8)
         == [x % 256, x / 256 % 256, x / 0x1_0000 % 256, x / 0x100_0000 % 256,
             x / 0x1_0000_0000 % 256, x / 0x100_0000_0000 % 256, x / 0x1_0000_0000_0000 % 256,
             x / 0x100_0000_0000_0000 % 256]
  {
    Shifts(x);
    TwoLowBytes(x, 8);
    TwoLowBytes(x / 0x1_0000, 6);
    TwoLowBytes(x / 0x1_0000_0000, 4);
    TwoLowBytes(x / 0x1_0000_0000_0000, 2);
  }

  /** The eight bytes of an integer, from the top byte down. */
  lemma HighBytesFirst(x: uint64)
    ensures ToBigEndian(x, 8)
         == [x / 0x100_0000_0000_0000 % 256, x / 0x1_0000_0000_0000 % 256, x / 0x100_0000_0000 % 256,
             x / 0x1_0000_0000 % 256, x / 0x100_0000 % 256, x / 0x1_0000 % 256, x / 256 % 256, x % 256]
  {
    Shifts(x);
    TwoHighBytes(x, 8);
    TwoHighBytes(x / 0x1_0000, 6);
    TwoHighBytes(x / 0x1_0000_0000, 4);
    TwoHighBytes(x / 0x1_0000_0000_0000, 2);
  }

  lemma Pow256Of8()
    ensures Pow256(8) == TWO64
  {
    assert Pow256(4) == 0x1_0000_0000 && Pow256(8) == 256 * 256 * 256 * 256 * Pow256(4);
  }
}
