/** The binary codec of challenge sets, through a writing and a reading archive. */
module Codec {
  import opened Bytes
  import opened Encoding

  const POINT_SIZE: nat := 192
  const ITEM_SIZE: nat := 56
  const HEADER_SIZE: nat := 240

  /** The raw structs of a G2 point and of a scalar. */
  type Point = b: ByteString | |b| == POINT_SIZE witness seq(POINT_SIZE, _ => 0)
  type Scalar = b: ByteString | |b| == SCALAR_SIZE witness seq(SCALAR_SIZE, _ => 0)

  datatype Item = Item(blockIndex: uint64, nu: Scalar, metadata: Metadata)

  type Items = s: seq<Item> | |s| < TWO64

  datatype Content = Content(R: Point, r: Scalar, blockCount: uint64, items: Items)

  class BinaryOutputArchive {
    var data: ByteString

    constructor ()
      ensures data == []
    {
      data := [];
    }

    method Save(bytes: ByteString)
      modifies this
      ensures data == old(data) + bytes
    {
      data := data + bytes;
    }

    method SaveUint64(x: uint64)
      modifies this
      ensures data == old(data) + ToLittleEndian(x, 8)
    {
      Save(ToLittleEndian(x, 8));
    }
  }

  /** What is left to read; a read past the end throws and is modelled as None. */
  class BinaryInputArchive {
    var data: ByteString

    constructor (data: ByteString)
      ensures this.data == data
    {
      this.data := data;
    }

    method Load(size: nat) returns (bytes: Option<ByteString>)
      modifies this
      ensures bytes.Some? <==> size <= |old(data)|
      ensures bytes.Some? ==> bytes.value == old(data)[..size] && data == old(data)[size..]
      ensures bytes.None? ==> data == old(data)
    {
      if |data| < size {
        return None;
      }
      bytes := Some(data[..size]);
      data := data[size..];
    }

    method LoadUint64() returns (x: Option<uint64>)
      modifies this
      ensures x.Some? <==> 8 <= |old(data)|
      ensures x.Some? ==> x.value == LittleEndian(old(data)[..8]) && data == old(data)[8..]
    {
      var bytes := Load(8);
      if bytes.None? {
        return None;
      }
      Uint64Bound(bytes.value);
      x := Some(LittleEndian(bytes.value));
    }
  }

  lemma Uint64Bound(b: ByteString)
    requires |b| == 8
    ensures LittleEndian(b) < TWO64
  {
    LittleEndianBound(b);
    Pow256Of8();
  }

  // ── The format ──

  function ReadUint64(b: ByteString): uint64
    requires |b| == 8
  {
    Uint64Bound(b);
    LittleEndian(b)
  }

  function EncodeItem(item: Item): (b: ByteString)
    ensures |b| == ITEM_SIZE
  {
    ToLittleEndian(item.blockIndex, 8) + item.nu
    + ToLittleEndian(item.metadata.version, 8) + ToLittleEndian(item.metadata.timestamp, 8)
  }

  function DecodeItem(b: ByteString): Item
    requires |b| == ITEM_SIZE
  {
    Item(ReadUint64(b[..8]), b[8..40], Metadata(ReadUint64(b[40..48]), ReadUint64(b[48..])))
  }

  function EncodeItems(items: seq<Item>): ByteString {
    if items == [] then [] else EncodeItem(items[0]) + EncodeItems(items[1..])
  }

  /** The items and the bytes behind them. */
  function DecodeItems(b: ByteString, count: nat): Option<(seq<Item>, ByteString)> {
    if count == 0 then Some(([], b))
    else if |b| < ITEM_SIZE then None
    else
      match DecodeItems(b[ITEM_SIZE..], count - 1)
      case None => None
      case Some((items, rest)) => Some(([DecodeItem(b[..ITEM_SIZE])] + items, rest))
  }

  function EncodeHeader(R: Point, r: Scalar, blockCount: uint64, itemCount: uint64): (b: ByteString)
    ensures |b| == HEADER_SIZE
  {
    R + r + ToLittleEndian(blockCount, 8) + ToLittleEndian(itemCount, 8)
  }

  function Encode(content: Content): ByteString {
    EncodeHeader(content.R, content.r, content.blockCount, |content.items|) + EncodeItems(content.items)
  }

  function Decode(b: ByteString): Option<(Content, ByteString)> {
    if |b| < HEADER_SIZE then None
    else
      var itemCount := ReadUint64(b[232..240]);
      match DecodeItems(b[HEADER_SIZE..], itemCount)
      case None => None
      case Some((items, rest)) =>
        DecodedLength(b[HEADER_SIZE..], itemCount);
        Some((Content(b[..192], b[192..224], ReadUint64(b[224..232]), items), rest))
  }

  lemma {:induction false} DecodedLength(b: ByteString, count: nat)
    ensures DecodeItems(b, count).Some? ==> |DecodeItems(b, count).value.0| == count
  {
    if count > 0 && |b| >= ITEM_SIZE {
      DecodedLength(b[ITEM_SIZE..], count - 1);
    }
  }

  // ── Encoding and decoding are inverse ──

  lemma {:induction false} LittleEndianInverse(b: ByteString)
    ensures ToLittleEndian(LittleEndian(b), |b|) == b
  {
    if b != [] {
      LittleEndianInverse(b[1..]);
      assert LittleEndian(b) % 256 == b[0] && LittleEndian(b) / 256 == LittleEndian(b[1..]);
      assert b == [b[0]] + b[1..];
    }
  }

  lemma Uint64RoundTrip(x: uint64)
    ensures ReadUint64(ToLittleEndian(x, 8)) == x
  {
    Pow256Of8();
    LittleEndianRoundTrip(x, 8);
  }

  lemma ItemRoundTrip(item: Item)
    ensures DecodeItem(EncodeItem(item)) == item
  {
    var b := EncodeItem(item);
    assert b[..8] == ToLittleEndian(item.blockIndex, 8) && b[8..40] == item.nu;
    assert b[40..48] == ToLittleEndian(item.metadata.version, 8);
    assert b[48..] == ToLittleEndian(item.metadata.timestamp, 8);
    Uint64RoundTrip(item.blockIndex);
    Uint64RoundTrip(item.metadata.version);
    Uint64RoundTrip(item.metadata.timestamp);
  }

  lemma ItemInverse(b: ByteString)
    requires |b| == ITEM_SIZE
    ensures EncodeItem(DecodeItem(b)) == b
  {
    LittleEndianInverse(b[..8]);
    LittleEndianInverse(b[40..48]);
    LittleEndianInverse(b[48..]);
  }

  lemma CutItem(first: ByteString, others: ByteString, trailing: ByteString)
    requires |first| == ITEM_SIZE
    ensures (first + others + trailing)[..ITEM_SIZE] == first
    ensures (first + others + trailing)[ITEM_SIZE..] == others + trailing
  {
  }

  lemma {:induction false} ItemsRoundTrip(items: seq<Item>, trailing: ByteString)
    ensures DecodeItems(EncodeItems(items) + trailing, |items|) == Some((items, trailing))
  {
    if items == [] {
      assert EncodeItems(items) + trailing == trailing;
    } else {
      CutItem(EncodeItem(items[0]), EncodeItems(items[1..]), trailing);
      ItemRoundTrip(items[0]);
      ItemsRoundTrip(items[1..], trailing);
      assert items == [items[0]] + items[1..];
    }
  }

  lemma {:induction false} ItemsInverse(b: ByteString, count: nat)
    ensures var d := DecodeItems(b, count);
            d.Some? ==> b == EncodeItems(d.value.0) + d.value.1
  {
    if count > 0 && DecodeItems(b, count).Some? {
      ItemsInverse(b[ITEM_SIZE..], count - 1);
      ItemInverse(b[..ITEM_SIZE]);
      var d := DecodeItems(b, count).value;
      assert d.0[1..] == DecodeItems(b[ITEM_SIZE..], count - 1).value.0;
      assert b == b[..ITEM_SIZE] + b[ITEM_SIZE..];
    }
  }

  lemma HeaderParts(R: Point, r: Scalar, blockCount: uint64, itemCount: uint64)
    ensures var b := EncodeHeader(R, r, blockCount, itemCount);
            && b[..192] == R && b[192..224] == r
            && ReadUint64(b[224..232]) == blockCount && ReadUint64(b[232..240]) == itemCount
  {
    var b := EncodeHeader(R, r, blockCount, itemCount);
    assert b[224..232] == ToLittleEndian(blockCount, 8) && b[232..240] == ToLittleEndian(itemCount, 8);
    Uint64RoundTrip(blockCount);
    Uint64RoundTrip(itemCount);
  }

  lemma HeaderInverse(b: ByteString)
    requires |b| == HEADER_SIZE
    ensures EncodeHeader(b[..192], b[192..224], ReadUint64(b[224..232]), ReadUint64(b[232..240])) == b
  {
    LittleEndianInverse(b[224..232]);
    LittleEndianInverse(b[232..240]);
  }

  lemma {:induction false} ItemAt(items: seq<Item>, j: nat)
    requires j < |items|
    ensures |EncodeItems(items)| == ITEM_SIZE * |items|
    ensures EncodeItems(items)[ITEM_SIZE * j..ITEM_SIZE * j + ITEM_SIZE] == EncodeItem(items[j])
  {
    EncodedLength(items);
    EncodedLength(items[1..]);
    if j == 0 {
    } else {
      ItemAt(items[1..], j - 1);
      BehindFirst(EncodeItem(items[0]), EncodeItems(items[1..]), ITEM_SIZE * (j - 1));
    }
  }

  lemma BehindFirst(first: ByteString, others: ByteString, at: nat)
    requires |first| == ITEM_SIZE && at + ITEM_SIZE <= |others|
    ensures (first + others)[at + ITEM_SIZE..at + 2 * ITEM_SIZE] == others[at..at + ITEM_SIZE]
  {
  }

  lemma {:induction false} EncodedLength(items: seq<Item>)
    ensures |EncodeItems(items)| == ITEM_SIZE * |items|
  {
    if items == [] {
    } else {
      EncodedLength(items[1..]);
    }
  }

  /** The layout of the header, byte by byte. */
  lemma HeaderLayout(content: Content)
    ensures var b := Encode(content);
            && |b| == 240 + 56 * |content.items|
            && b[..192] == content.R && b[192..224] == content.r
            && b[224..232] == ToLittleEndian(content.blockCount, 8)
            && b[232..240] == ToLittleEndian(|content.items|, 8)
  {
    EncodedLength(content.items);
    var header := EncodeHeader(content.R, content.r, content.blockCount, |content.items|);
    assert Encode(content)[..240] == header;
    assert header[224..232] == ToLittleEndian(content.blockCount, 8);
  }

  /** The layout of item j: index, coefficient, version and timestamp at fixed offsets. */
  lemma ItemLayout(content: Content, j: nat)
    requires j < |content.items|
    ensures var b, at, item := Encode(content), 240 + 56 * j, content.items[j];
            && at + 56 <= |b|
            && b[at..at + 8] == ToLittleEndian(item.blockIndex, 8)
            && b[at + 8..at + 40] == item.nu
            && b[at + 40..at + 48] == ToLittleEndian(item.metadata.version, 8)
            && b[at + 48..at + 56] == ToLittleEndian(item.metadata.timestamp, 8)
  {
    ItemAt(content.items, j);
    var header := EncodeHeader(content.R, content.r, content.blockCount, |content.items|);
    BehindHeader(header, EncodeItems(content.items), 56 * j);
    FieldsOfItem(Encode(content), 240 + 56 * j, content.items[j]);
  }

  lemma BehindHeader(header: ByteString, items: ByteString, at: nat)
    requires |header| == 240 && at + 56 <= |items|
    ensures (header + items)[240 + at..296 + at] == items[at..at + 56]
  {
  }

  lemma FieldsOfItem(b: ByteString, at: nat, item: Item)
    requires at + 56 <= |b| && b[at..at + 56] == EncodeItem(item)
    ensures b[at..at + 8] == ToLittleEndian(item.blockIndex, 8)
    ensures b[at + 8..at + 40] == item.nu
    ensures b[at + 40..at + 48] == ToLittleEndian(item.metadata.version, 8)
    ensures b[at + 48..at + 56] == ToLittleEndian(item.metadata.timestamp, 8)
  {
    var e := EncodeItem(item);
    assert e[..8] == ToLittleEndian(item.blockIndex, 8) && e[8..40] == item.nu;
    assert e[40..48] == ToLittleEndian(item.metadata.version, 8);
    assert e[48..] == ToLittleEndian(item.metadata.timestamp, 8);
    assert e[48..56] == e[48..];
    SliceOfItem(b, at, 0, 8);
    SliceOfItem(b, at, 8, 40);
    SliceOfItem(b, at, 40, 48);
    SliceOfItem(b, at, 48, 56);
  }

  lemma SliceOfItem(b: ByteString, at: nat, i: nat, j: nat)
    requires at + 56 <= |b| && i <= j <= 56
    ensures b[at..at + 56][i..j] == b[at + i..at + j]
  {
    var whole := b[at..at + 56];
    forall t | 0 <= t < j - i ensures whole[i..j][t] == b[at + i..at + j][t] {
      assert whole[i..j][t] == whole[i + t] == b[at + (i + t)];
    }
  }

  /** The codec is exact: bytes decode to a content and a rest exactly when they are its
      encoding followed by that rest. So no two contents share an encoding, trailing bytes
      survive, and nothing but an encoding is accepted. */
  lemma DecodeExactly(b: ByteString, content: Content, rest: ByteString)
    ensures Decode(b) == Some((content, rest)) <==> b == Encode(content) + rest
  {
    if b == Encode(content) + rest {
      RoundTrip(content, rest);
    }
    if Decode(b) == Some((content, rest)) {
      assert b == b[..HEADER_SIZE] + b[HEADER_SIZE..];
      var header := b[..HEADER_SIZE];
      assert header[..192] == b[..192] && header[192..224] == b[192..224];
      assert header[224..232] == b[224..232] && header[232..240] == b[232..240];
      HeaderInverse(header);
      DecodedLength(b[HEADER_SIZE..], ReadUint64(b[232..240]));
      ItemsInverse(b[HEADER_SIZE..], ReadUint64(b[232..240]));
    }
  }

  lemma RoundTrip(content: Content, trailing: ByteString)
    ensures Decode(Encode(content) + trailing) == Some((content, trailing))
  {
    var b := Encode(content) + trailing;
    var header := EncodeHeader(content.R, content.r, content.blockCount, |content.items|);
    assert b[..192] == header[..192] && b[192..224] == header[192..224];
    assert b[224..232] == header[224..232] && b[232..240] == header[232..240];
    assert b[HEADER_SIZE..] == EncodeItems(content.items) + trailing;
    HeaderParts(content.R, content.r, content.blockCount, |content.items|);
    ItemsRoundTrip(content.items, trailing);
  }

  /** A truncated encoding never decodes. */
  lemma TruncatedFails(content: Content, k: nat)
    requires k < |Encode(content)|
    ensures Decode(Encode(content)[..k]) == None
  {
    var whole := Encode(content);
    if Decode(whole[..k]).Some? {
      var (other, rest) := Decode(whole[..k]).value;
      DecodeExactly(whole[..k], other, rest);
      assert whole == whole[..k] + whole[k..];
      assert whole == Encode(other) + (rest + whole[k..]);
      RoundTrip(other, rest + whole[k..]);
      assert whole + [] == whole;
      RoundTrip(content, []);
      assert false;
    }
  }

  // ── The code ──

  class DHTDynamicChallenges {
    var R: Point
    var r: Scalar
    var blockCount: uint64
    var items: Items

    constructor (content: Content)
      ensures Value() == content
    {
      R, r, blockCount, items := content.R, content.r, content.blockCount, content.items;
    }

    function Value(): Content
      reads this
    {
      Content(R, r, blockCount, items)
    }

    method Serialize(ar: BinaryOutputArchive)
      modifies ar
      ensures ar.data == old(ar.data) + Encode(Value())
    {
      SaveHeader(ar);
      ghost var header := ar.data;
      for i := 0 to |items|
        invariant ar.data + EncodeItems(items[i..]) == header + EncodeItems(items)
      {
        ghost var before := ar.data;
        SaveItem(ar, items[i]);
        EncodeNext(items, i, before);
      }
      assert ar.data + [] == ar.data;
      assert header + EncodeItems(items) == old(ar.data) + Encode(Value());
    }

    method SaveHeader(ar: BinaryOutputArchive)
      modifies ar
      ensures ar.data == old(ar.data) + EncodeHeader(R, r, blockCount, |items|)
    {
      ghost var before := ar.data;
      ar.Save(R);
      ar.Save(r);
      ar.SaveUint64(blockCount);
      ar.SaveUint64(|items|);
      OneByOne(before, R, r, ToLittleEndian(blockCount, 8), ToLittleEndian(|items|, 8));
    }

    static method SaveItem(ar: BinaryOutputArchive, item: Item)
      modifies ar
      ensures ar.data == old(ar.data) + EncodeItem(item)
    {
      ghost var before := ar.data;
      ar.SaveUint64(item.blockIndex);
      ar.Save(item.nu);
      ar.SaveUint64(item.metadata.version);
      ar.SaveUint64(item.metadata.timestamp);
      OneByOne(before, ToLittleEndian(item.blockIndex, 8), item.nu,
               ToLittleEndian(item.metadata.version, 8), ToLittleEndian(item.metadata.timestamp, 8));
    }

    /** A throwing read leaves the object partly overwritten. */
    method Deserialize(ar: BinaryInputArchive) returns (ok: bool)
      modifies this, ar
      ensures ok <==> Decode(old(ar.data)).Some?
      ensures ok ==> Decode(old(ar.data)) == Some((Value(), ar.data))
    {
      ghost var all := ar.data;
      var count := LoadHeader(ar);
      if count.None? {
        return false;
      }
      ghost var body := ar.data;
      items := [];
      EmptyPrefix(DecodeItems(body, count.value));
      for i := 0 to count.value
        invariant |items| == i
        invariant R == all[..192] && r == all[192..224] && blockCount == ReadUint64(all[224..232])
        invariant JoinItems(items, DecodeItems(ar.data, count.value - i)) == DecodeItems(body, count.value)
      {
        ghost var before := ar.data;
        var item := LoadItem(ar);
        DecodeNext(items, before, count.value - i);
        if item.None? {
          return false;
        }
        items := items + [item.value];
      }
      assert items + [] == items;
      assert body == all[HEADER_SIZE..];
      ok := true;
    }

    method LoadHeader(ar: BinaryInputArchive) returns (count: Option<uint64>)
      modifies this, ar
      ensures count.Some? <==> HEADER_SIZE <= |old(ar.data)|
      ensures count.Some? ==>
                var all := old(ar.data);
                && R == all[..192] && r == all[192..224] && blockCount == ReadUint64(all[224..232])
                && count.value == ReadUint64(all[232..240]) && ar.data == all[HEADER_SIZE..]
    {
      ghost var all := ar.data;
      var raw := ar.Load(POINT_SIZE);
      if raw.None? {
        return None;
      }
      R := raw.value;
      raw := ar.Load(SCALAR_SIZE);
      if raw.None? {
        return None;
      }
      r := raw.value;
      assert r == all[192..224] && ar.data == all[224..];
      count := ar.LoadUint64();
      if count.None? {
        return None;
      }
      blockCount := count.value;
      assert all[224..][..8] == all[224..232] && ar.data == all[232..];
      count := ar.LoadUint64();
      assert |all| >= HEADER_SIZE ==> all[232..][..8] == all[232..240] && ar.data == all[240..];
    }

    static method LoadItem(ar: BinaryInputArchive) returns (item: Option<Item>)
      modifies ar
      ensures item.Some? <==> ITEM_SIZE <= |old(ar.data)|
      ensures item.Some? ==> item.value == DecodeItem(old(ar.data)[..ITEM_SIZE]) && ar.data == old(ar.data)[ITEM_SIZE..]
    {
      ghost var all := ar.data;
      var blockIndex := ar.LoadUint64();
      if blockIndex.None? {
        return None;
      }
      var nu := ar.Load(SCALAR_SIZE);
      if nu.None? {
        return None;
      }
      assert nu.value == all[8..40] && ar.data == all[40..];
      var version := ar.LoadUint64();
      if version.None? {
        return None;
      }
      assert all[40..][..8] == all[40..48] && ar.data == all[48..];
      var timestamp := ar.LoadUint64();
      if timestamp.None? {
        return None;
      }
      assert all[48..][..8] == all[48..56] && ar.data == all[56..];
      item := Some(Item(blockIndex.value, nu.value, Metadata(version.value, timestamp.value)));
      ItemParts(all[..ITEM_SIZE], all);
    }
  }

  lemma OneByOne(s: ByteString, a: ByteString, b: ByteString, c: ByteString, d: ByteString)
    ensures s + a + b + c + d == s + (a + b + c + d)
  {
  }

  lemma ItemParts(b: ByteString, all: ByteString)
    requires |all| >= ITEM_SIZE && b == all[..ITEM_SIZE]
    ensures b[..8] == all[..8] && b[8..40] == all[8..40] && b[40..48] == all[40..48] && b[48..] == all[48..56]
  {
  }

  lemma EncodeNext(items: seq<Item>, i: nat, before: ByteString)
    requires i < |items|
    ensures before + EncodeItems(items[i..]) == before + EncodeItem(items[i]) + EncodeItems(items[i + 1..])
  {
    assert items[i..][1..] == items[i + 1..];
  }

  function JoinItems(items: seq<Item>, more: Option<(seq<Item>, ByteString)>): Option<(seq<Item>, ByteString)> {
    match more
    case None => None
    case Some((others, rest)) => Some((items + others, rest))
  }

  lemma EmptyPrefix(more: Option<(seq<Item>, ByteString)>)
    ensures JoinItems([], more) == more
  {
    if more.Some? {
      assert [] + more.value.0 == more.value.0;
    }
  }

  lemma DecodeNext(items: seq<Item>, b: ByteString, count: nat)
    requires count > 0
    ensures JoinItems(items, DecodeItems(b, count)) ==
      if |b| < ITEM_SIZE then None
      else JoinItems(items + [DecodeItem(b[..ITEM_SIZE])], DecodeItems(b[ITEM_SIZE..], count - 1))
  {
    if |b| >= ITEM_SIZE && DecodeItems(b[ITEM_SIZE..], count - 1).Some? {
      var others := DecodeItems(b[ITEM_SIZE..], count - 1).value.0;
      var first := DecodeItem(b[..ITEM_SIZE]);
      assert items + ([first] + others) == items + [first] + others;
    }
  }
}
