/** DynamicHashTableStateStore: block metadata objects, one sparse collection a file. */
module Store {
  import opened Bytes
  import opened Encoding
  import opened Slots
  import opened Rebuild

  type FileSlots = map<uint64, Metadata>

  type Snapshot = map<ByteString, FileSlots>

  datatype Outcome = Done | NoSuchFile | FileExists | ZeroBlocks | NoSuchBlock

  /** `++version` in 64-bit arithmetic, and the refreshed timestamp. */
  function Bumped(m: Metadata, now: uint64): Metadata {
    Metadata(Next(m.version), now)
  }

  datatype Query = Found(meta: VersionedBlockMetadata) | Missing(reason: Outcome)

  /** A freshly registered file: version 1 in every slot. */
  function InitialSlots(blockCount: uint64, clock: uint64 -> uint64): FileSlots {
    map j: uint64 | 0 <= j < blockCount :: Metadata(1, clock(j))
  }

  function ModifyAt(slots: FileSlots, slot: uint64, now: uint64): FileSlots
    requires slot in slots
  {
    slots[slot := Bumped(slots[slot], now)]
  }

  function SetAt(slots: FileSlots, slot: uint64, m: Metadata): FileSlots {
    slots[slot := m]
  }

  class VersionedBlockMetadata {
    var version: uint64
    var timestamp: uint64

    constructor (version: uint64, timestamp: uint64)
      ensures Value() == Metadata(version, timestamp)
    {
      this.version := version;
      this.timestamp := timestamp;
    }

    function Value(): Metadata
      reads this
    {
      Metadata(version, timestamp)
    }

    method Clone() returns (copy: VersionedBlockMetadata)
      ensures fresh(copy) && copy.Value() == Value()
    {
      copy := new VersionedBlockMetadata(version, timestamp);
    }

    predicate Equals(other: VersionedBlockMetadata)
      reads this, other
      ensures Equals(other) <==> Value() == other.Value()
    {
      version == other.version && timestamp == other.timestamp
    }

    method Bump(now: uint64)
      modifies this
      ensures Value() == Bumped(old(Value()), now)
    {
      version := Next(version);
      timestamp := now;
    }
  }

  /** The values behind the objects of a collection. */
  ghost function ValuesOf(entries: map<uint64, VersionedBlockMetadata>): FileSlots
    reads entries.Values
  {
    map i | i in entries :: entries[i].Value()
  }

  ghost predicate Unaliased(entries: map<uint64, VersionedBlockMetadata>) {
    forall i, j :: i in entries && j in entries && i != j ==> entries[i] != entries[j]
  }

  lemma InsertedObjects(entries: map<uint64, VersionedBlockMetadata>, k: uint64, x: VersionedBlockMetadata)
    requires Unaliased(entries) && x !in entries.Values
    ensures Unaliased(InsertAt(entries, k, x)) && InsertAt(entries, k, x).Values <= entries.Values + {x}
  {
  }

  lemma DeletedObjects(entries: map<uint64, VersionedBlockMetadata>, k: uint64)
    requires Unaliased(entries)
    ensures Unaliased(DeleteAt(entries, k)) && DeleteAt(entries, k).Values <= entries.Values
  {
  }

  lemma InsertedValues(entries: map<uint64, VersionedBlockMetadata>, k: uint64, x: VersionedBlockMetadata)
    ensures ValuesOf(InsertAt(entries, k, x)) == InsertAt(ValuesOf(entries), k, x.Value())
  {
    SameSlots(ValuesOf(InsertAt(entries, k, x)), InsertAt(ValuesOf(entries), k, x.Value()));
  }

  lemma DeletedValues(entries: map<uint64, VersionedBlockMetadata>, k: uint64)
    ensures ValuesOf(DeleteAt(entries, k)) == DeleteAt(ValuesOf(entries), k)
  {
    SameSlots(ValuesOf(DeleteAt(entries, k)), DeleteAt(ValuesOf(entries), k));
  }

  /** The in-memory collection: an ordered map from 0-based slots to shared objects. */
  class BlockMetadataCollection {
    var entries: map<uint64, VersionedBlockMetadata>

    constructor ()
      ensures entries == map[]
    {
      entries := map[];
    }

    method Set(slot: uint64, meta: VersionedBlockMetadata)
      modifies this
      ensures entries == old(entries)[slot := meta]
    {
      entries := entries[slot := meta];
    }

    function GetByIndex(slot: uint64): VersionedBlockMetadata?
      reads this
    {
      if slot in entries then entries[slot] else null
    }

    method Clear()
      modifies this
      ensures entries == map[]
    {
      entries := map[];
    }

    method GetSnapshot() returns (s: seq<(uint64, VersionedBlockMetadata)>)
      ensures Lists(s, entries)
    {
      s := [];
      var rest := entries;
      while rest.Keys != {}
        invariant forall i :: i in rest ==> i in entries && rest[i] == entries[i]
        invariant forall a :: 0 <= a < |s| ==> s[a].0 in entries && entries[s[a].0] == s[a].1
        invariant forall i :: i in entries ==> i in rest || (i, entries[i]) in s
        decreases |rest.Keys|
      {
        var i :| i in rest.Keys;
        s := s + [(i, rest[i])];
        assert rest.Keys == (rest - {i}).Keys + {i};
        rest := rest - {i};
      }
    }

    method TotalSize() returns (n: nat)
      ensures n == |entries|
    {
      n := |entries|;
    }
  }

  class DynamicHashTableStateStore {
    var files: map<ByteString, BlockMetadataCollection>

    /** No collection serves two files and no metadata object sits in two slots. */
    ghost predicate Valid()
      reads this, files.Values
    {
      && (forall f, g :: f in files && g in files && f != g ==>
            files[f] != files[g] && files[f].entries.Values !! files[g].entries.Values)
      && (forall f :: f in files ==> Unaliased(files[f].entries))
    }

    ghost function Objects(): set<VersionedBlockMetadata>
      reads this, files.Values
    {
      set f, i | f in files && i in files[f].entries :: files[f].entries[i]
    }

    /** The metadata values of every file, without the objects that hold them. */
    ghost function View(): Snapshot
      reads this, files.Values, Objects()
    {
      map f | f in files :: ValuesOf(files[f].entries)
    }

    /** Every file but one keeps its collection, its objects and their values. */
    twostate predicate OthersUntouched(fileId: ByteString)
      reads this, files.Values, Objects()
    {
      && fileId in files && files.Keys == old(files.Keys) + {fileId}
      && (forall f | f in old(files) && f != fileId ::
            files[f] == old(files[f]) && files[f].entries == old(files[f].entries)
            && ValuesOf(files[f].entries) == old(ValuesOf(files[f].entries)))
    }

    /** The touched file has its old or a new collection, of its old or of new objects. */
    twostate predicate OwnOrNew(fileId: ByteString)
      requires fileId in files
      reads this, files.Values
    {
      var collection := files[fileId];
      && (if fileId in old(files) then collection == old(files[fileId]) else !old(allocated(collection)))
      && Unaliased(collection.entries)
      && (forall x | x in collection.entries.Values ::
            !old(allocated(x)) || (fileId in old(files) && x in old(files[fileId].entries.Values)))
    }

    twostate lemma OneFileChanged(fileId: ByteString)
      requires old(Valid()) && OthersUntouched(fileId) && OwnOrNew(fileId)
      ensures Valid()
      ensures View() == old(View())[fileId := ValuesOf(files[fileId].entries)]
    {
      forall f | f in files && f != fileId
        ensures files[f] != files[fileId] && files[f].entries.Values !! files[fileId].entries.Values
      {
        assert f in old(files);
        assert forall x :: x in files[f].entries.Values ==> x in old(files[f].entries.Values);
      }
      ViewOfOneFile(fileId);
    }

    twostate lemma ViewOfOneFile(fileId: ByteString)
      requires OthersUntouched(fileId)
      ensures View() == old(View())[fileId := ValuesOf(files[fileId].entries)]
    {
    }

    constructor ()
      ensures Valid() && files == map[] && View() == map[]
    {
      files := map[];
    }

    method AddFile(fileId: ByteString) returns (out: Outcome)
      requires Valid()
      modifies this
      ensures Valid()
      ensures out == if fileId in old(files) then FileExists else Done
      ensures out.FileExists? ==> files == old(files)
      ensures out.Done? ==> fileId in files && fresh(files[fileId]) && files == old(files)[fileId := files[fileId]]
      ensures View() == if out.Done? then old(View())[fileId := map[]] else old(View())
    {
      if fileId in files {
        return FileExists;
      }
      var collection := new BlockMetadataCollection();
      files := files[fileId := collection];
      assert files.Keys == old(files.Keys) + {fileId};
      OneFileChanged(fileId);
      out := Done;
    }

    /** A collection of blockCount fresh entries; the one in slot i is stamped clock(i). */
    static method InitialCollection(blockCount: uint64, clock: uint64 -> uint64)
      returns (collection: BlockMetadataCollection)
      ensures fresh(collection) && Unaliased(collection.entries)
      ensures forall j: uint64 :: j in collection.entries ==> fresh(collection.entries[j])
      ensures ValuesOf(collection.entries) == InitialSlots(blockCount, clock)
    {
      collection := new BlockMetadataCollection();
      var i: uint64 := 0;
      while i < blockCount
        invariant i <= blockCount && fresh(collection)
        invariant forall j: uint64 :: j in collection.entries ==> fresh(collection.entries[j])
        invariant Unaliased(collection.entries)
        invariant forall j: uint64 :: j in collection.entries <==> j < i
        invariant forall j: uint64 :: j in collection.entries ==> collection.entries[j].Value() == Metadata(1, clock(j))
      {
        var meta := new VersionedBlockMetadata(1, clock(i));
        collection.Set(i, meta);
        i := i + 1;
      }
      SameSlots(ValuesOf(collection.entries), InitialSlots(blockCount, clock));
    }

    method AddFileWithBlocks(fileId: ByteString, blockCount: uint64, clock: uint64 -> uint64) returns (out: Outcome)
      requires Valid()
      modifies this
      ensures Valid()
      ensures out == if fileId in old(files) then FileExists else if blockCount == 0 then ZeroBlocks else Done
      ensures !out.Done? ==> files == old(files) && View() == old(View())
      ensures out.Done? ==> View() == old(View())[fileId := InitialSlots(blockCount, clock)]
      ensures out.Done? ==>
                && (forall k: uint64 :: k in View()[fileId] <==> k < blockCount)
                && (forall k: uint64 :: k < blockCount ==> View()[fileId][k] == Metadata(1, clock(k)))
    {
      if fileId in files {
        return FileExists;
      }
      if blockCount == 0 {
        return ZeroBlocks;
      }
      var collection := InitialCollection(blockCount, clock);
      files := files[fileId := collection];
      assert files.Keys == old(files.Keys) + {fileId};
      OneFileChanged(fileId);
      out := Done;
    }

    method RemoveFile(fileId: ByteString) returns (out: Outcome)
      requires Valid()
      modifies this
      ensures Valid()
      ensures out == if fileId in old(files) then Done else NoSuchFile
      ensures files == old(files) - {fileId} && View() == old(View()) - {fileId}
    {
      if fileId !in files {
        return NoSuchFile;
      }
      files := files - {fileId};
      out := Done;
    }

    predicate HasFile(fileId: ByteString)
      reads this
    {
      fileId in files
    }

    /** The stored object itself, or the exception. */
    function GetBlockMetadata(fileId: ByteString, blockIndex: uint64): (found: Query)
      reads this, files.Values
      ensures found.Missing? && found.reason.NoSuchFile? <==> fileId !in files
      ensures found.Found? <==> fileId in files && SlotOf(blockIndex) in files[fileId].entries
      ensures found.Found? ==> found.meta == files[fileId].entries[SlotOf(blockIndex)]
    {
      if fileId !in files then Missing(NoSuchFile)
      else
        var meta := files[fileId].GetByIndex(SlotOf(blockIndex));
        if meta == null then Missing(NoSuchBlock) else Found(meta)
    }

    /** Counts entries, not the largest index. */
    method GetBlockCount(fileId: ByteString) returns (out: Outcome, count: nat)
      ensures out == if fileId in files then Done else NoSuchFile
      ensures out.Done? ==> count == |files[fileId].entries|
    {
      if fileId !in files {
        return NoSuchFile, 0;
      }
      count := files[fileId].TotalSize();
      out := Done;
    }

    /** Bumps the object in the slot, and by validity that slot only. */
    method ModifyBlock(fileId: ByteString, blockIndex: uint64, now: uint64) returns (out: Outcome)
      requires Valid()
      modifies if fileId in files && SlotOf(blockIndex) in files[fileId].entries
               then {files[fileId], files[fileId].entries[SlotOf(blockIndex)]} else {}
      ensures Valid()
      ensures out.NoSuchFile? <==> fileId !in files
      ensures out.Done? <==> fileId in files && SlotOf(blockIndex) in old(files[fileId].entries)
      ensures out.NoSuchFile? || out.Done? || out.NoSuchBlock?
      ensures fileId in files ==> files[fileId].entries == old(files[fileId].entries)
      ensures out.Done? ==> View() == old(View())[fileId := ModifyAt(old(View())[fileId], SlotOf(blockIndex), now)]
      ensures !out.Done? ==> View() == old(View())
    {
      if fileId !in files {
        return NoSuchFile;
      }
      var slot := SlotOf(blockIndex);
      if files[fileId].GetByIndex(slot) == null {
        return NoSuchBlock;
      }
      BumpEntry(files[fileId], slot, now);
      forall f | f in files && f != fileId
        ensures ValuesOf(files[f].entries) == old(ValuesOf(files[f].entries))
      {
        assert files[fileId].entries[slot] !in old(files[f].entries.Values);
      }
      ViewOfOneFile(fileId);
      out := Done;
    }

    /** The collecting loops: the listed entries whose slot qualifies. */
    static method Collect(entries: seq<(uint64, VersionedBlockMetadata)>, keep: uint64 -> bool)
      returns (chosen: seq<(uint64, VersionedBlockMetadata)>)
      ensures chosen == Select(entries, keep)
    {
      chosen := [];
      for a := 0 to |entries|
        invariant chosen == Select(entries[..a], keep)
      {
        assert entries[..a + 1][..a] == entries[..a];
        if keep(entries[a].0) {
          chosen := chosen + [entries[a]];
        }
      }
      assert entries[..|entries|] == entries;
    }

    /** The re-insertion loops: every entry at its moved slot. */
    static method Reinsert(collection: BlockMetadataCollection, entries: seq<(uint64, VersionedBlockMetadata)>,
                           move: uint64 -> uint64)
      modifies collection
      ensures collection.entries == SetAll(old(collection.entries), entries, move)
    {
      for a := 0 to |entries|
        invariant collection.entries == SetAll(old(collection.entries), entries[..a], move)
      {
        assert entries[..a + 1][..a] == entries[..a];
        collection.Set(move(entries[a].0), entries[a].1);
      }
      assert entries[..|entries|] == entries;
    }

    /** The rebuild of insertBlock: collect, clear, re-insert, then set the new entry. */
    static method ShiftAndSet(collection: BlockMetadataCollection, slot: uint64, metadata: VersionedBlockMetadata)
      modifies collection
      ensures collection.entries == InsertAt(old(collection.entries), slot, metadata)
    {
      var entries := collection.GetSnapshot();
      var toShift := Collect(entries, AtLeast(slot));
      if toShift != [] {
        var below := Collect(entries, Under(slot));
        collection.Clear();
        Reinsert(collection, below, Stay());
        Reinsert(collection, toShift, Up());
        RebuildIsInsert(old(collection.entries), entries, slot, metadata);
      } else {
        NoShiftIsInsert(old(collection.entries), entries, slot, metadata);
      }
      collection.Set(slot, metadata);
    }

    /** The rebuild of deleteBlock. */
    static method DropAndShift(collection: BlockMetadataCollection, slot: uint64)
      modifies collection
      ensures collection.entries == DeleteAt(old(collection.entries), slot)
    {
      var entries := collection.GetSnapshot();
      var below := Collect(entries, Under(slot));
      var above := Collect(entries, Over(slot));
      collection.Clear();
      Reinsert(collection, below, Stay());
      Reinsert(collection, above, Down());
      RebuildIsDelete(old(collection.entries), entries, slot);
    }

    /** The same effects on the values behind one collection. */
    static method InsertFresh(collection: BlockMetadataCollection, slot: uint64, now: uint64)
      requires Unaliased(collection.entries)
      modifies collection
      ensures slot in collection.entries && fresh(collection.entries[slot])
      ensures collection.entries == InsertAt(old(collection.entries), slot, collection.entries[slot])
      ensures Unaliased(collection.entries)
      ensures forall x :: x in collection.entries.Values ==> x in old(collection.entries.Values) || fresh(x)
      ensures ValuesOf(collection.entries) == InsertAt(old(ValuesOf(collection.entries)), slot, Metadata(1, now))
    {
      var metadata := new VersionedBlockMetadata(1, now);
      ShiftAndSet(collection, slot, metadata);
      InsertedObjects(old(collection.entries), slot, metadata);
      InsertedValues(old(collection.entries), slot, metadata);
    }

    static method DeleteEntry(collection: BlockMetadataCollection, slot: uint64)
      requires Unaliased(collection.entries)
      modifies collection
      ensures collection.entries == DeleteAt(old(collection.entries), slot)
      ensures Unaliased(collection.entries) && collection.entries.Values <= old(collection.entries.Values)
      ensures ValuesOf(collection.entries) == DeleteAt(old(ValuesOf(collection.entries)), slot)
    {
      DropAndShift(collection, slot);
      DeletedObjects(old(collection.entries), slot);
      DeletedValues(old(collection.entries), slot);
    }

    static method BumpEntry(collection: BlockMetadataCollection, slot: uint64, now: uint64)
      requires slot in collection.entries && Unaliased(collection.entries)
      modifies collection, collection.entries[slot]
      ensures collection.entries == old(collection.entries)
      ensures ValuesOf(collection.entries) == ModifyAt(old(ValuesOf(collection.entries)), slot, now)
    {
      var existing := collection.entries[slot];
      existing.Bump(now);
      collection.Set(slot, existing);
      assert collection.entries == old(collection.entries);
    }

    /** Shifts the entries at the slot and above up by one and puts fresh metadata there. */
    method InsertBlock(fileId: ByteString, blockIndex: uint64, now: uint64) returns (out: Outcome)
      requires Valid()
      modifies if fileId in files then {files[fileId]} else {}
      ensures Valid()
      ensures out == if fileId in files then Done else NoSuchFile
      ensures out.Done? ==>
                var slot := SlotOf(blockIndex);
                && slot in files[fileId].entries && fresh(files[fileId].entries[slot])
                && files[fileId].entries == InsertAt(old(files[fileId].entries), slot, files[fileId].entries[slot])
      ensures out.Done? ==>
                View() == old(View())[fileId := InsertAt(old(View())[fileId], SlotOf(blockIndex), Metadata(1, now))]
      ensures !out.Done? ==> View() == old(View())
    {
      if fileId !in files {
        return NoSuchFile;
      }
      InsertFresh(files[fileId], SlotOf(blockIndex), now);
      OneFileChanged(fileId);
      out := Done;
    }

    /** Drops the entry and shifts the ones above it down by one. */
    method DeleteBlock(fileId: ByteString, blockIndex: uint64) returns (out: Outcome)
      requires Valid()
      modifies if fileId in files then {files[fileId]} else {}
      ensures Valid()
      ensures out.NoSuchFile? <==> fileId !in files
      ensures out.Done? <==> fileId in files && SlotOf(blockIndex) in old(files[fileId].entries)
      ensures out.NoSuchFile? || out.Done? || out.NoSuchBlock?
      ensures out.Done? ==> files[fileId].entries == DeleteAt(old(files[fileId].entries), SlotOf(blockIndex))
      ensures out.Done? ==> View() == old(View())[fileId := DeleteAt(old(View())[fileId], SlotOf(blockIndex))]
      ensures !out.Done? ==> View() == old(View())
    {
      if fileId !in files {
        return NoSuchFile;
      }
      var slot := SlotOf(blockIndex);
      if files[fileId].GetByIndex(slot) == null {
        return NoSuchBlock;
      }
      DeleteEntry(files[fileId], slot);
      OneFileChanged(fileId);
      out := Done;
    }

    /** On-demand registration during tagging: a direct write to the collection, no shift. */
    static method RegisterEntry(collection: BlockMetadataCollection, slot: uint64, now: uint64)
      returns (meta: VersionedBlockMetadata)
      requires Unaliased(collection.entries)
      modifies collection
      ensures fresh(meta) && meta.Value() == Metadata(1, now)
      ensures collection.entries == old(collection.entries)[slot := meta]
      ensures Unaliased(collection.entries)
      ensures forall x :: x in collection.entries.Values ==> x in old(collection.entries.Values) || fresh(x)
      ensures ValuesOf(collection.entries) == SetAt(old(ValuesOf(collection.entries)), slot, Metadata(1, now))
    {
      meta := new VersionedBlockMetadata(1, now);
      collection.Set(slot, meta);
      SameSlots(ValuesOf(collection.entries), SetAt(old(ValuesOf(collection.entries)), slot, Metadata(1, now)));
    }

    method RegisterBlock(fileId: ByteString, blockIndex: uint64, now: uint64) returns (meta: VersionedBlockMetadata)
      requires Valid() && fileId in files
      modifies files[fileId]
      ensures Valid() && fresh(meta) && meta.Value() == Metadata(1, now)
      ensures files[fileId].entries == old(files[fileId].entries)[SlotOf(blockIndex) := meta]
      ensures View() == old(View())[fileId := SetAt(old(View())[fileId], SlotOf(blockIndex), Metadata(1, now))]
    {
      meta := RegisterEntry(files[fileId], SlotOf(blockIndex), now);
      OneFileChanged(fileId);
    }
  }
}
