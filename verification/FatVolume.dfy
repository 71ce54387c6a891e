/**
 A mounted volume: the FAT, the allocator's hint and count, the cluster buffer, and the data clusters.
 The ghost field `data` holds the bytes of every data cluster; `Valid` ties it to the device.
 */
module FatVolume {
  import opened Bytes
  import opened BlockDevice
  import opened FatTables
  import opened FatChains
  import opened FatFiles

  function ClusterSize(geo: Geometry): nat {
    geo.sectorsPerCluster * 512
  }

  /** `fat32_cluster_to_sector`. */
  function ClusterSector(geo: Geometry, c: nat): nat
    requires c >= 2
  {
    geo.dataStart + (c - 2) * geo.sectorsPerCluster
  }

  /** All data clusters lie on the device. */
  predicate FitsDevice(geo: Geometry, n: nat) {
    geo.dataStart + geo.totalClusters * geo.sectorsPerCluster <= n
  }

  ghost predicate ClusterHolds(geo: Geometry, sectors: seq<Sector>, c: nat, bytes: seq<Byte>)
  {
    && c >= 2 && ClusterSector(geo, c) + geo.sectorsPerCluster <= |sectors|
    && bytes == Span(sectors, ClusterSector(geo, c), geo.sectorsPerCluster)
  }

  ghost predicate DataOnDisk(geo: Geometry, sectors: seq<Sector>, data: seq<seq<Byte>>)
  {
    && |data| == geo.MaxCluster()
    && forall c :: 2 <= c < |data| ==> ClusterHolds(geo, sectors, c, data[c])
  }

  lemma ClusterInside(geo: Geometry, c: nat)
    requires InRange(geo.MaxCluster(), c)
    ensures geo.dataStart <= ClusterSector(geo, c)
    ensures ClusterSector(geo, c) + geo.sectorsPerCluster <= geo.dataStart + geo.totalClusters * geo.sectorsPerCluster
  {
    MulLe(c - 1, geo.totalClusters, geo.sectorsPerCluster);
    assert (c - 1) * geo.sectorsPerCluster == (c - 2) * geo.sectorsPerCluster + geo.sectorsPerCluster;
  }

  lemma ClustersApart(geo: Geometry, c: nat, d: nat)
    requires 2 <= c < d
    ensures ClusterSector(geo, c) + geo.sectorsPerCluster <= ClusterSector(geo, d)
  {
    MulLe(c - 1, d - 2, geo.sectorsPerCluster);
    assert (c - 1) * geo.sectorsPerCluster == (c - 2) * geo.sectorsPerCluster + geo.sectorsPerCluster;
  }

  /** The data clusters are numbered from 2, and lie one after the other from the start of the data area to its end. */
  lemma ClusterLayout(geo: Geometry, c: nat)
    ensures InRange(geo.MaxCluster(), c) <==> 2 <= c < 2 + geo.totalClusters
    ensures ClusterSector(geo, 2) == geo.dataStart && ClusterSize(geo) == 512 * geo.sectorsPerCluster
    ensures c >= 2 ==> ClusterSector(geo, c + 1) == ClusterSector(geo, c) + geo.sectorsPerCluster
    ensures ClusterSector(geo, 2 + geo.totalClusters) == geo.dataStart + geo.totalClusters * geo.sectorsPerCluster
  {
    if c >= 2 {
      NextMultiple(c - 2, geo.sectorsPerCluster);
    }
  }

  /** FAT traffic never reaches a data cluster. */
  lemma DataFrame(geo: Geometry, s: seq<Sector>, t: seq<Sector>, data: seq<seq<Byte>>)
    requires DataOnDisk(geo, s, data) && SameOutsideFat(geo, s, t)
    ensures DataOnDisk(geo, t, data)
  {
    forall c | 2 <= c < |data|
      ensures ClusterHolds(geo, t, c, data[c])
    {
      assert ClusterHolds(geo, s, c, data[c]);
      ClusterInside(geo, c);
      SpanFrame(s, t, ClusterSector(geo, c), geo.sectorsPerCluster);
    }
  }

  lemma DataUniform(geo: Geometry, sectors: seq<Sector>, data: seq<seq<Byte>>)
    requires DataOnDisk(geo, sectors, data)
    ensures |data| == geo.MaxCluster() && Uniform(data, ClusterSize(geo))
  {
    forall c | 2 <= c < |data|
      ensures |data[c]| == ClusterSize(geo)
    {
      assert ClusterHolds(geo, sectors, c, data[c]);
    }
  }

  /** A cluster write changes that cluster alone, and no FAT or reserved sector. */
  lemma DataPut(geo: Geometry, s: seq<Sector>, data: seq<seq<Byte>>, c: nat, block: seq<Byte>)
    requires DataOnDisk(geo, s, data) && InRange(geo.MaxCluster(), c) && |block| == ClusterSize(geo)
    ensures ClusterSector(geo, c) + geo.sectorsPerCluster <= |s|
    ensures var t := Overlay(s, ClusterSector(geo, c), block);
            && DataOnDisk(geo, t, data[c := block])
            && forall i :: 0 <= i < geo.dataStart && i < |s| ==> t[i] == s[i]
  {
    assert ClusterHolds(geo, s, c, data[c]);
    ClusterInside(geo, c);
    assert |block| / 512 == geo.sectorsPerCluster;
    var t, data' := Overlay(s, ClusterSector(geo, c), block), data[c := block];
    forall d | 2 <= d < |data'|
      ensures ClusterHolds(geo, t, d, data'[d])
    {
      assert ClusterHolds(geo, s, d, data[d]);
      if d < c {
        ClustersApart(geo, d, c);
        SpanFrame(s, t, ClusterSector(geo, d), geo.sectorsPerCluster);
      } else if c < d {
        ClustersApart(geo, c, d);
        SpanFrame(s, t, ClusterSector(geo, d), geo.sectorsPerCluster);
      }
    }
  }

  ghost function StoredCluster(geo: Geometry, sectors: seq<Sector>, c: nat): (bytes: seq<Byte>)
    requires FitsDevice(geo, |sectors|) && InRange(geo.MaxCluster(), c)
    ensures ClusterHolds(geo, sectors, c, bytes)
  {
    ClusterInside(geo, c);
    Span(sectors, ClusterSector(geo, c), geo.sectorsPerCluster)
  }

  /** The data clusters as they stand on the device. */
  ghost function StoredData(geo: Geometry, sectors: seq<Sector>): (data: seq<seq<Byte>>)
    requires FitsDevice(geo, |sectors|)
    ensures DataOnDisk(geo, sectors, data)
  {
    seq(geo.MaxCluster(), c requires 0 <= c < geo.MaxCluster() =>
      if c < 2 then [] else StoredCluster(geo, sectors, c))
  }

  lemma SliceOfSlice<T>(s: seq<T>, base: nat, size: nat, off: nat, t: nat)
    requires base + size <= |s| && off + t <= size
    ensures s[base..base + size][off..off + t] == s[base + off..base + off + t]
  {
    var lhs, rhs := s[base..base + size][off..off + t], s[base + off..base + off + t];
    assert |lhs| == |rhs| && forall j :: 0 <= j < t ==> lhs[j] == rhs[j];
  }

  lemma SliceJoin<T>(s: seq<T>, i: nat, j: nat, k: nat)
    requires i <= j <= k <= |s|
    ensures s[i..j] + s[j..k] == s[i..k]
  {
  }

  /** The fields of a directory entry that file operations use; attribute bit 4 marks a directory. */
  datatype FileEntry = FileEntry(first: nat, size: nat, attr: Byte) {
    predicate IsDirectory() { attr / 16 % 2 == 1 }
  }

  /** The byte position a write starts at: the number of clusters to skip is kept in 32 bits. */
  function WritePosition(offset: nat, size: nat): nat
    requires size > 0
  {
    offset / size % 0x1_0000_0000 * size + offset % size
  }

  lemma QuotientSmaller(x: nat, size: nat)
    requires size > 0
    ensures x / size <= x
  {
    OffsetSplit(x, size, 0);
    if x / size > x {
      MulLe(1, size, x / size);
    }
  }

  lemma PositionExact(offset: nat, size: nat)
    requires 0 < size && offset < 0x1_0000_0000
    ensures WritePosition(offset, size) == offset
  {
    OffsetSplit(offset, size, 0);
    QuotientSmaller(offset, size);
    DivModUnique(offset / size, 0, offset / size, 0x1_0000_0000);
  }

  /** `ch` is the chain of the file: empty when the entry names no data cluster. */
  ghost predicate HasChain(entry: FileEntry, fat: seq<nat>, max: nat, ch: seq<nat>)
  {
    if entry.first < 2 then ch == [] else IsChain(fat, max, ch) && ch[0] == entry.first
  }

  /** How many bytes a read asks for, with the 64-bit sum of the bounds check. */
  function ReadLength(size: nat, offset: nat, len: nat): (n: nat)
    ensures offset + len < 0x1_0000_0000_0000_0000 ==>
              n == if offset >= size then 0 else if len <= size - offset then len else size - offset
  {
    if offset >= size then 0
    else if (offset + len) % 0x1_0000_0000_0000_0000 > size then size - offset
    else len
  }

  /** The size field after a write of `n` bytes at `offset`: 64-bit sum, 32-bit field. */
  function GrownSize(size: nat, offset: nat, n: nat): (r: nat)
    ensures offset + n < 0x1_0000_0000 ==> r == if offset + n > size then offset + n else size
  {
    var end := (offset + n) % 0x1_0000_0000_0000_0000;
    if end > size then end % 0x1_0000_0000 else size
  }

  /** `out` is what `content` holds from `pos`, `n` bytes or up to its end. */
  ghost predicate IsRead(content: seq<Byte>, pos: nat, n: nat, out: seq<Byte>)
  {
    if pos >= |content| then out == []
    else |out| == (if pos + n <= |content| then n else |content| - pos) && out == content[pos..pos + |out|]
  }

  /** The cluster count computed by the shrinking branch, in 32-bit arithmetic. */
  function ClustersNeeded(newSize: nat, size: nat): nat
    requires size > 0
  {
    (newSize + size - 1) % 0x1_0000_0000 / size
  }

  /** The part of a chain a truncation keeps. */
  function KeptClusters(ch: seq<nat>, oldSize: nat, newSize: nat, size: nat): seq<nat>
    requires size > 0
  {
    var needed := ClustersNeeded(newSize, size);
    if newSize == oldSize then ch
    else if newSize == 0 then []
    else if newSize < oldSize && 2 <= needed <= |ch| then ch[..needed - 1]
    else ch
  }

  /**
   How many clusters a truncation keeps, for a file whose clusters cover its size and sizes whose sum with a cluster
   fits in 32 bits: all when the size grows or stays, none for size 0, all for a shrink to at most one cluster, and
   for any other shrink one cluster less than the new size needs.
   */
  lemma KeptExactly(ch: seq<nat>, oldSize: nat, newSize: nat, size: nat)
    requires size > 0 && oldSize <= |ch| * size && newSize + size - 1 < 0x1_0000_0000
    ensures var kept := KeptClusters(ch, oldSize, newSize, size);
            && kept <= ch
            && (newSize >= oldSize && (newSize > 0 || oldSize == 0) ==> kept == ch)
            && (newSize == 0 < oldSize ==> kept == [])
            && (0 < newSize <= size ==> kept == ch)
            && (size < newSize < oldSize ==> |kept| * size < newSize <= (|kept| + 1) * size)
  {
    var needed := ClustersNeeded(newSize, size);
    DivModUnique(newSize + size - 1, 0, newSize + size - 1, 0x1_0000_0000);
    assert needed == CeilDiv(newSize, size);
    CeilDivExceeds(newSize, 1, size);
    CeilDivExceeds(newSize, |ch|, size);
    if needed >= 2 {
      CeilDivExceeds(newSize, needed - 1, size);
      CeilDivExceeds(newSize, needed, size);
    }
  }

  /**
   For a file whose clusters cover its size, the clusters a shrink keeps still cover the new size exactly
   when the new size fits in one cluster (or the sum of the size and a cluster overflows 32 bits).
   */
  lemma ShrinkCovers(ch: seq<nat>, oldSize: nat, newSize: nat, size: nat)
    requires 0 < size < 0x1_0000_0000 && 0 < newSize < oldSize <= |ch| * size && oldSize < 0x1_0000_0000
    ensures newSize <= |KeptClusters(ch, oldSize, newSize, size)| * size <==>
            newSize <= size || newSize + size - 1 >= 0x1_0000_0000
  {
    var needed := ClustersNeeded(newSize, size);
    if newSize + size - 1 >= 0x1_0000_0000 {
      DivModUnique((newSize + size - 1) % 0x1_0000_0000, 0, (newSize + size - 1) % 0x1_0000_0000, size);
    } else {
      assert needed == CeilDiv(newSize, size);
      CeilDivExceeds(newSize, 1, size);
      CeilDivExceeds(newSize, |ch|, size);
      if needed >= 2 {
        CeilDivExceeds(newSize, needed - 1, size);
      }
    }
  }

  class Volume {
    const table: FatTable
    const buffer: array<Byte>
    var freeClusters: nat
    var nextFree: nat
    var fsinfoDirty: bool
    ghost var data: seq<seq<Byte>>

    function Max(): nat {
      table.geo.MaxCluster()
    }

    function Size(): nat {
      ClusterSize(table.geo)
    }

    ghost function Fat(): seq<nat>
      reads table`fat
    {
      table.fat
    }

    ghost predicate Valid()
      reads this, table, table.dev, table.cache, buffer
    {
      && table.Valid()
      && buffer as object != table.cache as object
      && buffer.Length == Size() && Size() > 0
      && 2 < Max() <= |Fat()| && Max() <= CLUSTER_BAD
      && freeClusters < 0x1_0000_0000
      && FitsDevice(table.geo, |table.dev.sectors|)
      && DataOnDisk(table.geo, table.dev.sectors, data)
    }

    /** What the operations need to know of a valid volume. */
    lemma Facts()
      requires Valid()
      ensures Size() > 0 && buffer.Length == Size()
      ensures 2 < Max() <= |Fat()| == table.geo.fatSectors * 128 && Max() <= CLUSTER_BAD
      ensures |data| == Max() && Uniform(data, Size())
    {
      hide SlotsWellFormed, SlotsEncode, DiskEncodes, DataOnDisk, ClusterSize;
      DataUniform(table.geo, table.dev.sectors, data);
    }

    /** Mount: an empty cache over the device, with the count and hint found in FSInfo. */
    constructor (dev: Device, geo: Geometry, freeCount: nat, hint: nat)
      requires geo.WellFormed() && geo.totalClusters > 0 && FitsDevice(geo, |dev.sectors|)
      requires freeCount < 0x1_0000_0000
      ensures Valid() && table.dev == dev && table.geo == geo && !table.readonly
      ensures fresh(table) && fresh(table.cache) && fresh(buffer)
      ensures Fat() == OnDisk(geo, dev.sectors) && data == StoredData(geo, dev.sectors)
      ensures freeClusters == freeCount && nextFree == hint
    {
      table := new FatTable(dev, geo);
      buffer := new Byte[ClusterSize(geo)];
      freeClusters, nextFree, fsinfoDirty := freeCount, hint, false;
      data := StoredData(geo, dev.sectors);
    }

    /** The known free count agrees with the table. */
    ghost predicate CountExact()
      reads `freeClusters, table`fat
    {
      Max() <= |Fat()| && freeClusters == FreeCount(Fat(), 2, Max())
    }

    /** `fat32_read_cluster`. */
    method ReadCluster(c: nat) returns (r: int)
      requires Valid() && c < 0x1000_0000
      modifies buffer, table.dev`ops
      ensures Valid()
      ensures !InRange(Max(), c) ==> r == ERR_INVAL
      ensures InRange(Max(), c) ==> r == if table.dev.fails(old(table.dev.ops)) then ERR_IO else 0
      ensures InRange(Max(), c) ==> table.dev.ops == old(table.dev.ops) + 1
      ensures r == 0 ==> buffer[..] == data[c]
      ensures r != 0 ==> buffer[..] == old(buffer[..])
    {
      if !InRange(Max(), c) {
        return ERR_INVAL;
      }
      hide FatTable.Valid;
      ClusterInside(table.geo, c);
      assert ClusterHolds(table.geo, table.dev.sectors, c, data[c]);
      var ok, bytes := table.dev.ReadSectors(ClusterSector(table.geo, c), table.geo.sectorsPerCluster);
      if !ok {
        return ERR_IO;
      }
      forall i | 0 <= i < buffer.Length {
        buffer[i] := bytes[i];
      }
      r := 0;
    }

    /** `fat32_write_cluster`: only the named cluster changes on the device. */
    method WriteCluster(c: nat) returns (r: int)
      requires Valid() && c < 0x1000_0000
      modifies this`data, table.dev
      ensures Valid()
      ensures table.readonly ==> r == ERR_ROFS
      ensures !table.readonly && !InRange(Max(), c) ==> r == ERR_INVAL
      ensures !table.readonly && InRange(Max(), c) ==> r == if table.dev.fails(old(table.dev.ops)) then ERR_IO else 0
      ensures data == if r == 0 then old(data)[c := buffer[..]] else old(data)
      ensures forall i :: 0 <= i < table.geo.dataStart && i < |old(table.dev.sectors)| ==>
                i < |table.dev.sectors| && table.dev.sectors[i] == old(table.dev.sectors)[i]
    {
      if table.readonly {
        return ERR_ROFS;
      }
      if !InRange(Max(), c) {
        return ERR_INVAL;
      }
      hide SlotsEncode, DiskEncodes, DataOnDisk;
      ghost var sectors0 := table.dev.sectors;
      DataPut(table.geo, sectors0, data, c, buffer[..]);
      assert buffer.Length / 512 == table.geo.sectorsPerCluster;
      var ok := table.dev.WriteSectors(ClusterSector(table.geo, c), buffer[..]);
      if !ok {
        return ERR_IO;
      }
      DiskFrame(table.cache[..], table.geo, sectors0, table.dev.sectors, table.fat);
      data := data[c := buffer[..]];
      r := 0;
    }

    /** The FAT sector of the slot a miss would reuse reverts to what is on the device, as `sectors` has it. */
    ghost predicate Reverts(slots: seq<Slot>, fat: seq<nat>, sectors: seq<Sector>)
      reads table`fat
    {
      exists v: nat ::
        && FatTable.IsVictim(slots, v) && table.geo.fatStart <= slots[v].sector < |sectors|
        && (slots[v].sector - table.geo.fatStart + 1) * 128 <= |fat|
        && Fat() == Reverted(fat, slots[v].sector - table.geo.fatStart, sectors[slots[v].sector])
    }

    /**
     A FAT read, seen from the volume. Only a refused write-back can disturb the table: then the sector it was for
     reverts, or, if the load is refused too, the table stays as it is but the cache no longer agrees with the device.
     */
    method Entry(c: nat) returns (e: nat)
      requires Valid() && c < |Fat()|
      modifies table`fat, table.dev, table.cache
      ensures !old(table.WriteBackFails(c)) ==> Valid() && Fat() == old(Fat())
      ensures old(table.WriteBackFails(c) && !table.LoadFails(c)) ==>
                Valid() && Reverts(old(table.cache[..]), old(Fat()), old(table.dev.sectors))
      ensures old(table.WriteBackFails(c) && table.LoadFails(c)) ==> Fat() == old(Fat())
      ensures |Fat()| == |old(Fat())| && e == if old(table.LoadFails(c)) then CLUSTER_BAD else Low28(Fat()[c])
      ensures table.dev.Reliable() ==> Valid() && Fat() == old(Fat()) && e == Low28(Fat()[c])
    {
      hide FatTable.Valid, DataOnDisk, FitsDevice, ClusterSize, Reverted, FatTable.Forgotten, FatTable.IsVictim;
      ghost var sectors0, slots0 := table.dev.sectors, table.cache[..];
      if table.WriteBackFails(c) {
        ghost var v := table.DirtyVictim();
        table.EncodesBack(v);
        assert FatTable.IsVictim(slots0, v);
      }
      e := table.ReadEntry(c);
      DataFrame(table.geo, sectors0, table.dev.sectors, data);
    }

    /** `fat32_set_cluster`. */
    method SetEntry(c: nat, value: nat) returns (r: int)
      requires Valid() && c < |Fat()|
      modifies table`fat, table.dev, table.cache
      ensures Valid()
      ensures table.readonly ==> r == ERR_ROFS
      ensures !table.readonly ==> r == if old(table.WriteBackFails(c) || table.LoadFails(c)) then ERR_IO else 0
      ensures !table.readonly && table.dev.Reliable() ==> r == 0
      ensures Fat() == if r == 0 then old(Fat())[c := MergeEntry(old(Fat())[c], value)] else old(Fat())
    {
      hide FatTable.Valid, DataOnDisk, FitsDevice, ClusterSize;
      ghost var sectors0 := table.dev.sectors;
      r := table.WriteEntry(c, value);
      DataFrame(table.geo, sectors0, table.dev.sectors, data);
    }

    /** `fat32_next_cluster`. */
    method NextCluster(c: nat) returns (next: nat)
      requires Valid() && c < 0x1000_0000
      modifies table`fat, table.dev, table.cache
      ensures !InRange(Max(), c) ==> next == CLUSTER_EOF && Valid() && Fat() == old(Fat())
      ensures InRange(Max(), c) && !old(table.WriteBackFails(c)) ==> Valid() && Fat() == old(Fat())
      ensures InRange(Max(), c) && old(table.WriteBackFails(c) && !table.LoadFails(c)) ==>
                Valid() && Reverts(old(table.cache[..]), old(Fat()), old(table.dev.sectors))
      ensures InRange(Max(), c) && old(table.WriteBackFails(c) && table.LoadFails(c)) ==> Fat() == old(Fat())
      ensures InRange(Max(), c) ==>
                c < |Fat()| && next == if old(table.LoadFails(c)) then CLUSTER_BAD else Low28(Fat()[c])
      ensures table.dev.Reliable() ==> Valid() && Fat() == old(Fat())
      ensures table.dev.Reliable() ==> next == if InRange(Max(), c) then Low28(Fat()[c]) else CLUSTER_EOF
    {
      hide FatTable.WriteBackFails, FatTable.LoadFails, Reverts;
      if !InRange(Max(), c) {
        return CLUSTER_EOF;
      }
      next := Entry(c);
    }

    /**
     The search ends: it started on a data cluster and will meet it again, or it meets a free entry on the way.
     From past the last data cluster of a full volume it would go round for ever.
     */
    ghost predicate SearchEnds(start: nat)
      reads table`fat
    {
      && 2 <= start < |Fat()| && 2 < Max() <= |Fat()|
      && (start < Max() || IsFree(Fat(), start) || FreeCount(Fat(), 2, Max()) > 0)
    }

    /** With room for an allocation the search ends, and on a data cluster. */
    lemma RoomEnds(m: nat)
      requires 2 < Max() <= |Fat()| && m > 0 && Room(Fat(), nextFree, Max(), m)
      ensures SearchEnds(StartOf(nextFree)) && SearchOk(Fat(), nextFree, Max())
      ensures StartOf(nextFree) < Max() || !IsFree(Fat(), StartOf(nextFree))
    {
      RoomStart(Fat(), nextFree, Max(), m);
    }

    /**
     The search loop of the allocator: the first free entry it meets, or 0 when it has come round. From a data
     cluster that is the first free cluster in cyclic order.
     */
    method FindFree(start: nat) returns (c: nat)
      requires Valid() && table.dev.Reliable() && SearchEnds(start)
      modifies table`fat, table.dev, table.cache
      ensures Valid() && Fat() == old(Fat())
      ensures c == 0 ==> FreeCount(Fat(), 2, Max()) == 0
      ensures c != 0 ==> Found(Fat(), Max(), start, c)
      ensures c != 0 && (start < Max() || !IsFree(Fat(), start)) ==> FirstFreeFrom(Fat(), Max(), start, c)
      ensures start >= Max() && IsFree(Fat(), start) ==> c == start
    {
      hide FatTable.WriteBackFails, FatTable.LoadFails, Reverts;
      hide Valid, Searched;
      Facts();
      c := start;
      ghost var wrapped, n: nat := false, 0;
      FreeCountZero(Fat(), 2, Max());
      SearchedNone(Fat(), Max(), start);
      while true
        invariant Valid() && Fat() == old(Fat()) && 2 < Max() <= |Fat()|
        invariant Searched(Fat(), Max(), start, n) && c == Probe(Max(), start, n)
        invariant 2 <= c < |Fat()| && (wrapped ==> c < Max() && (start < Max() ==> c < start))
        invariant !wrapped ==> start <= c && (start < Max() ==> c < Max()) && (start >= Max() ==> c == start)
        invariant forall k :: start <= k < (if wrapped then Max() else c) ==> !IsFree(Fat(), k)
        invariant wrapped ==> !IsFree(Fat(), start) && forall k :: 2 <= k < c ==> !IsFree(Fat(), k)
        decreases if wrapped then 0 else 1, if wrapped then Max() - c else if start < Max() then Max() - c else 0
      {
        var entry := Entry(c);
        if entry == CLUSTER_FREE {
          return;
        }
        SearchedNext(Fat(), Max(), start, n);
        n := n + 1;
        c := c + 1;
        if c >= Max() {
          c, wrapped := 2, true;
        }
        if c == start {
          break;
        }
      }
      c := 0;
    }

    /**
     `fat32_alloc_cluster`. From a hint that is a data cluster or below them it always comes back; it returns 0
     exactly when no data cluster is free, and otherwise marks the first free cluster in cyclic order from
     the hint, and only it, as an end of chain. Allocating the last data cluster leaves the hint past the end;
     from there a free word in the FAT is handed out although it belongs to no data cluster, a used one sends
     the search to the first data cluster, and on a full volume the search does not end.
     */
    method AllocCluster() returns (c: nat)
      requires Valid() && table.dev.Reliable() && (table.readonly || SearchEnds(StartOf(nextFree)))
      modifies this`freeClusters, this`nextFree, this`fsinfoDirty, table`fat, table.dev, table.cache
      ensures Valid()
      ensures table.readonly ==> c == 0
      ensures !table.readonly && StartOf(old(nextFree)) < Max() ==> (c == 0 <==> FreeCount(old(Fat()), 2, Max()) == 0)
      ensures !table.readonly && StartOf(old(nextFree)) >= Max() ==> c != 0
      ensures c == 0 ==> Fat() == old(Fat()) && freeClusters == old(freeClusters) && nextFree == old(nextFree)
      ensures c != 0 ==> Found(old(Fat()), Max(), StartOf(old(nextFree)), c)
      ensures c != 0 && (StartOf(old(nextFree)) < Max() || !IsFree(old(Fat()), StartOf(old(nextFree)))) ==>
                FirstFreeFrom(old(Fat()), Max(), StartOf(old(nextFree)), c)
      ensures c != 0 && StartOf(old(nextFree)) >= Max() && IsFree(old(Fat()), StartOf(old(nextFree))) ==>
                c == StartOf(old(nextFree)) && !InRange(Max(), c)
      ensures !table.readonly && InRange(Max(), old(nextFree)) && IsFree(old(Fat()), old(nextFree)) ==>
                c == old(nextFree)
      ensures !table.readonly && old(nextFree) < 2 && 2 < |old(Fat())| && IsFree(old(Fat()), 2) ==> c == 2
      ensures c != 0 ==> c < |Fat()| && Fat() == MarkedEof(old(Fat()), c) && nextFree == c + 1
      ensures c != 0 ==>
                freeClusters == if 0 < old(freeClusters) < 0xFFFF_FFFF then old(freeClusters) - 1 else old(freeClusters)
      ensures old(CountExact()) && (c != 0 ==> InRange(Max(), c)) ==> CountExact()
    {
      hide FatTable.Valid, DataOnDisk, FitsDevice, ClusterSize, Found, FirstFreeFrom, FreeCount,
        FatTable.WriteBackFails, FatTable.LoadFails;
      if table.readonly {
        return 0;
      }
      c := FindFree(if nextFree < 2 then 2 else nextFree);
      FreeCountZero(Fat(), 2, Max());
      if c != 0 && StartOf(nextFree) < Max() && IsFree(Fat(), StartOf(nextFree)) {
        StartTaken(Fat(), Max(), StartOf(nextFree), c);
      }
      if c != 0 {
        FoundFacts(Fat(), Max(), StartOf(nextFree), c);
        FreeCountZero(Fat(), 2, Max());
        var r := SetEntry(c, CLUSTER_EOF);
        if InRange(Max(), c) {
          FreeCountPoint(old(Fat()), Fat(), 2, Max(), c);
        }
        if StartOf(nextFree) < Max() || !IsFree(old(Fat()), StartOf(nextFree)) {
          FirstFreeFacts(old(Fat()), Max(), StartOf(nextFree), c);
        }
        if freeClusters != 0xFFFF_FFFF && freeClusters > 0 {
          freeClusters := freeClusters - 1;
        }
        nextFree, fsinfoDirty := c + 1, true;
      }
    }

    /** The loop of `fat32_free_chain`; it ends on every table because each step frees an entry or stops. */
    method FreeWalk(start: nat) returns (count: nat)
      requires Valid() && table.dev.Reliable() && start < 0x1000_0000 && !table.readonly
      modifies table`fat, table.dev, table.cache
      ensures Valid()
      ensures Fat() == FreedAll(old(Fat()), Walk(old(Fat()), Max(), start))
      ensures count == |Walk(old(Fat()), Max(), start)|
    {
      hide FatTable.WriteBackFails, FatTable.LoadFails, Reverts;
      hide Valid, Walk, FreeCount, FreedAll;
      Facts();
      ghost var fat0, done := Fat(), [];
      var cluster := start;
      count := 0;
      FreedNone(fat0);
      assert done + Walk(fat0, Max(), start) == Walk(fat0, Max(), start);
      while InRange(Max(), cluster)
        invariant Valid() && |Fat()| == |fat0| && cluster < 0x1000_0000
        invariant count == |done| && Fat() == FreedAll(fat0, done)
        invariant done + Walk(Fat(), Max(), cluster) == Walk(fat0, Max(), start)
        decreases UsedCount(Fat(), Max()), InRange(Max(), cluster)
      {
        FreedDrops(Fat(), Max(), cluster);
        FreedAllAppend(fat0, done, cluster);
        WalkStep(Fat(), Max(), cluster);
        done := done + [cluster];
        var next := Entry(cluster);
        var w := SetEntry(cluster, CLUSTER_FREE);
        count := count + 1;
        if IsEof(next) {
          assert done == Walk(fat0, Max(), start);
          break;
        }
        cluster := next;
      }
      if !InRange(Max(), cluster) {
        WalkStep(Fat(), Max(), cluster);
      }
      assert done == Walk(fat0, Max(), start);
    }

    /** The count update that ends `fat32_free_chain`; 0xFFFFFFFF stands for an unknown count. */
    method AddFree(count: nat)
      requires Valid()
      modifies this`freeClusters, this`fsinfoDirty
      ensures Valid()
      ensures freeClusters ==
                if old(freeClusters) == 0xFFFF_FFFF then 0xFFFF_FFFF else (old(freeClusters) + count) % 0x1_0000_0000
    {
      hide FatTable.Valid, DataOnDisk, FitsDevice, ClusterSize;
      if freeClusters != 0xFFFF_FFFF {
        freeClusters := (freeClusters + count) % 0x1_0000_0000;
      }
      fsinfoDirty := true;
    }

    /**
     `fat32_free_chain` on any table: it visits the clusters of `Walk`, frees exactly those, and adds
     their number to a known count, so a count that was exact stays exact unless the walk runs into an
     entry that was already free.
     */
    method FreeChain(start: nat) returns (r: int)
      requires Valid() && table.dev.Reliable() && start < 0x1000_0000
      modifies this`freeClusters, this`fsinfoDirty, table`fat, table.dev, table.cache
      ensures Valid()
      ensures table.readonly ==> r == ERR_ROFS && Fat() == old(Fat()) && freeClusters == old(freeClusters)
      ensures !table.readonly ==> r == 0 && Fat() == FreedAll(old(Fat()), Walk(old(Fat()), Max(), start))
      ensures !table.readonly && old(freeClusters) != 0xFFFF_FFFF ==>
                freeClusters == (old(freeClusters) + |Walk(old(Fat()), Max(), start)|) % 0x1_0000_0000
      ensures !table.readonly && old(CountExact()) ==> (CountExact() <==> !RunsIntoFree(old(Fat()), Max(), start))
    {
      hide FatTable.Valid, DataOnDisk, FitsDevice, ClusterSize, Walk, FreeCount, RunsIntoFree, FreedAll;
      if table.readonly {
        return ERR_ROFS;
      }
      ghost var fat0 := Fat();
      var count := FreeWalk(start);
      AddFree(count);
      WalkKeepsCount(fat0, Max(), start);
      r := 0;
    }

    /** The free clusters ahead of the hint. */
    ghost function FreeAhead(): nat
      reads `nextFree, table`fat
    {
      if Max() <= |Fat()| then Ahead(Fat(), nextFree, Max()) else 0
    }

    /**
     From `ahead` free clusters ahead of the hint and `n` clusters in the file to the file `ch`: every cluster
     added uses up at most one of those ahead, and none is added beyond the `need` of the write.
     */
    ghost predicate Spent(ahead: nat, n: nat, ch: seq<nat>, need: nat)
      reads `nextFree, table`fat
    {
      FreeAhead() + |ch| >= ahead + n && (|ch| <= n || |ch| <= need)
    }

    /** The hint is still `hint`, or follows a cluster of the chain. */
    ghost predicate HintFrom(hint: nat, ch: seq<nat>)
      reads `nextFree
    {
      nextFree == hint || (nextFree > 0 && nextFree - 1 in ch)
    }

    /**
     Allocate a cluster and append it to the file, zeroed if `clear`: the extension step of
     `fat32_write_file`. It fails only when no data cluster is free.
     */
    method Extend(last: nat, clear: bool, ghost job: Job, ghost s0: Snapshot, ghost ch: seq<nat>, ghost w: nat,
        ghost need: nat)
      returns (c: nat)
      requires Valid() && table.dev.Reliable() && !table.readonly
      requires job.max == Max() && job.size == Size()
      requires Progress(job, s0, Snapshot(Fat(), data, ch), w) && ch != [] && last == ch[|ch| - 1]
      requires need > |ch| && Room(Fat(), nextFree, Max(), need - |ch|)
      requires clear || |ch| * Size() >= job.pos
      modifies this, table`fat, table.dev, table.cache, buffer
      ensures Valid()
      ensures c == 0 ==> Fat() == old(Fat()) && data == old(data) && FreeCount(Fat(), 2, Max()) == 0
      ensures c != 0 ==> Progress(job, s0, Snapshot(Fat(), data, ch + [c]), w)
      ensures c != 0 ==> Room(Fat(), nextFree, Max(), need - |ch| - 1)
      ensures FreeAhead() + (if c == 0 then 0 else 1) >= old(FreeAhead())
      ensures nextFree == if c == 0 then old(nextFree) else c + 1
      ensures old(CountExact()) ==> CountExact()
    {
      hide FatTable.WriteBackFails, FatTable.LoadFails, Reverts;
      hide Valid, FreeCount, Ahead, Progress, Room, IsChain, FirstFreeFrom, Found, SearchEnds, SearchOk;
      Facts();
      ghost var fat0, data0, hint, m := Fat(), data, nextFree, need - |ch|;
      ProgressFacts(job, s0, Snapshot(fat0, data0, ch), w);
      ChainUsed(fat0, Max(), ch);
      RoomEnds(m);
      c := AllocCluster();
      if c == 0 {
        return;
      }
      FirstFreeFacts(fat0, Max(), StartOf(hint), c);
      RoomStep(fat0, hint, Max(), m, c);
      AheadStep(fat0, hint, Max(), c);
      LinkKeepsFree(Fat(), c + 1, Max(), m - 1, last, c);
      var r := SetEntry(last, c);
      if clear {
        ClearCluster(c);
      }
      ProgressExtend(job, s0, Snapshot(fat0, data0, ch), w, c, data[c]);
      assert data == data0[c := data[c]];
    }

    /** Fill a cluster with zeros. */
    method ClearCluster(c: nat)
      requires Valid() && table.dev.Reliable() && !table.readonly && InRange(Max(), c)
      modifies this`data, table.dev, buffer
      ensures Valid() && c < |old(data)| && data == old(data)[c := seq(Size(), _ => 0)]
    {
      hide FatTable.Valid, DataOnDisk, FitsDevice, ClusterSize;
      DataUniform(table.geo, table.dev.sectors, data);
      forall i | 0 <= i < buffer.Length {
        buffer[i] := 0;
      }
      assert buffer[..] == seq(Size(), _ => 0);
      var r := WriteCluster(c);
    }

    /** The cluster after `cluster` in the file, added to the file if there is none; 0 when out of space. */
    method Advance(cluster: nat, clear: bool, ghost job: Job, ghost s0: Snapshot, ghost ch: seq<nat>, ghost q: nat,
        ghost w: nat, ghost need: nat)
      returns (next: nat, ghost ch': seq<nat>)
      requires Valid() && table.dev.Reliable() && !table.readonly
      requires job.max == Max() && job.size == Size()
      requires Progress(job, s0, Snapshot(Fat(), data, ch), w) && q < |ch| && cluster == ch[q]
      requires q + 1 < need && (need > |ch| ==> Room(Fat(), nextFree, Max(), need - |ch|))
      requires clear || (q + 1) * Size() >= job.pos
      modifies this, table`fat, table.dev, table.cache, buffer
      ensures Valid() && Progress(job, s0, Snapshot(Fat(), data, ch'), w)
      ensures ch <= ch'
      ensures next == 0 ==> FreeCount(Fat(), 2, Max()) == 0 && |ch'| == q + 1
      ensures next != 0 ==> q + 1 < |ch'| && next == ch'[q + 1]
      ensures next != 0 ==> need > |ch'| ==> Room(Fat(), nextFree, Max(), need - |ch'|)
      ensures Spent(old(FreeAhead()), |ch|, ch', need)
      ensures HintFrom(old(nextFree), ch')
      ensures old(CountExact()) ==> CountExact()
    {
      hide FatTable.WriteBackFails, FatTable.LoadFails, Reverts;
      hide FatTable.Valid, DataOnDisk, FitsDevice, ClusterSize, FreeCount, Ahead, Progress, Room, IsChain;
      ProgressFacts(job, s0, Snapshot(Fat(), data, ch), w);
      ChainNext(Fat(), Max(), ch, q);
      ch' := ch;
      next := NextCluster(cluster);
      if IsEof(next) || !InRange(Max(), next) {
        next := Extend(cluster, clear, job, s0, ch, w, need);
        if next != 0 {
          ch' := ch + [next];
        }
      }
    }

    /**
     Read a cluster, copy `piece` into it at `off`, and write it back. If the read is refused the rest of
     the cluster is written as zeros.
     */
    method PutPiece(cluster: nat, off: nat, piece: seq<Byte>) returns (r: int)
      requires Valid() && !table.readonly && InRange(Max(), cluster) && off + |piece| <= Size()
      modifies this`data, table.dev, buffer
      ensures Valid()
      ensures r == if table.dev.fails(old(table.dev.ops) + 1) then ERR_IO else 0
      ensures r != 0 ==> data == old(data)
      ensures r == 0 && !table.dev.fails(old(table.dev.ops)) ==>
                |old(data)[cluster]| == Size() && data == old(data)[cluster := Splice(old(data)[cluster], off, piece)]
      ensures r == 0 && table.dev.fails(old(table.dev.ops)) ==>
                data == old(data)[cluster := Splice(seq(Size(), _ => 0), off, piece)]
    {
      hide FatTable.Valid, DataOnDisk, FitsDevice, ClusterSize;
      DataUniform(table.geo, table.dev.sectors, data);
      ghost var base := if table.dev.fails(table.dev.ops) then seq(Size(), _ => 0) else data[cluster];
      r := ReadCluster(cluster);
      if r != 0 {
        forall i | 0 <= i < buffer.Length {
          buffer[i] := 0;
        }
      }
      assert buffer[..] == base;
      forall i | 0 <= i < |piece| {
        buffer[off + i] := piece[i];
      }
      assert buffer[..] == Splice(base, off, piece);
      r := WriteCluster(cluster);
    }

    /** Walk to the cluster number `skip` of the file, adding zeroed clusters where the chain is too short. */
    method SkipTo(first: nat, skip: nat, ghost job: Job, ghost s0: Snapshot, ghost ch: seq<nat>, ghost need: nat)
      returns (ok: bool, cluster: nat, ghost ch': seq<nat>)
      requires Valid() && table.dev.Reliable() && !table.readonly
      requires job.max == Max() && job.size == Size()
      requires Progress(job, s0, Snapshot(Fat(), data, ch), 0) && ch != [] && first == ch[0]
      requires skip < need && (need > |ch| ==> Room(Fat(), nextFree, Max(), need - |ch|))
      modifies this, table`fat, table.dev, table.cache, buffer
      ensures Valid()
      ensures ch <= ch' && Progress(job, s0, Snapshot(Fat(), data, ch'), 0)
      ensures ok ==> skip < |ch'| && cluster == ch'[skip]
      ensures ok ==> need > |ch'| ==> Room(Fat(), nextFree, Max(), need - |ch'|)
      ensures !ok ==> FreeCount(Fat(), 2, Max()) == 0 && |ch'| <= skip
      ensures Spent(old(FreeAhead()), |ch|, ch', need)
      ensures HintFrom(old(nextFree), ch')
      ensures old(CountExact()) ==> CountExact()
    {
      hide FatTable.WriteBackFails, FatTable.LoadFails, Reverts;
      hide FatTable.Valid, DataOnDisk, FitsDevice, ClusterSize, FreeCount, Ahead, Progress, Room, IsChain;
      ok, cluster, ch' := true, first, ch;
      var q := 0;
      while q < skip
        invariant Valid() && 0 <= q <= skip && ch <= ch' && q < |ch'| && cluster == ch'[q]
        invariant Progress(job, s0, Snapshot(Fat(), data, ch'), 0)
        invariant need > |ch'| ==> Room(Fat(), nextFree, Max(), need - |ch'|)
        invariant Spent(old(FreeAhead()), |ch|, ch', need)
        invariant HintFrom(old(nextFree), ch')
        invariant old(CountExact()) ==> CountExact()
      {
        ProgressFacts(job, s0, Snapshot(Fat(), data, ch'), 0);
        var next;
        next, ch' := Advance(cluster, true, job, s0, ch', q, 0, need);
        if next == 0 {
          ok := false;
          return;
        }
        cluster, q := next, q + 1;
      }
    }

    /** The write loop: cluster by cluster from byte `off` of cluster number `q`, until done or out of space. */
    method WritePieces(start: nat, off0: nat, bytes: seq<Byte>, ghost job: Job, ghost s0: Snapshot, ghost ch: seq<nat>,
        ghost q0: nat)
      returns (w: nat, ghost ch': seq<nat>)
      requires Valid() && table.dev.Reliable() && !table.readonly
      requires job.max == Max() && job.size == Size() && job.bytes == bytes && bytes != []
      requires Progress(job, s0, Snapshot(Fat(), data, ch), 0) && q0 < |ch| && start == ch[q0]
      requires off0 < Size() && job.pos == q0 * Size() + off0
      requires job.Clusters() > |ch| ==> Room(Fat(), nextFree, Max(), job.Clusters() - |ch|)
      modifies this, table`fat, table.dev, table.cache, buffer
      ensures Valid() && ch <= ch'
      ensures 0 < w <= |bytes| && Progress(job, s0, Snapshot(Fat(), data, ch'), w)
      ensures w < |bytes| ==> FreeCount(Fat(), 2, Max()) == 0 && job.StopsAt(|ch'|, w)
      ensures Spent(old(FreeAhead()), |ch|, ch', job.Clusters())
      ensures HintFrom(old(nextFree), ch')
      ensures old(CountExact()) ==> CountExact()
    {
      hide FatTable.WriteBackFails, FatTable.LoadFails, Reverts;
      hide Valid, ClusterSize, FreeCount, FreeAhead, Progress, Room, IsChain, CeilDiv, CountExact;
      ch', w := ch, 0;
      var cluster: nat, off: nat := start, off0;
      ghost var q: nat, base: nat := q0, job.pos - off0;
      Facts();
      while w < |bytes|
        invariant Valid() && 2 < Max() <= |Fat()| && 0 <= w <= |bytes| && ch <= ch' && q < |ch'| && cluster == ch'[q]
        invariant base == q * Size() && (w < |bytes| ==> off < Size() && job.pos + w == base + off)
        invariant Progress(job, s0, Snapshot(Fat(), data, ch'), w)
        invariant job.Clusters() > |ch'| ==> Room(Fat(), nextFree, Max(), job.Clusters() - |ch'|)
        invariant Spent(old(FreeAhead()), |ch|, ch', job.Clusters())
        invariant HintFrom(old(nextFree), ch')
        invariant old(CountExact()) ==> CountExact()
      {
        var t := WritePiece(cluster, off, bytes, w, job, s0, ch', q, base);
        w, off := w + t, 0;
        if w < |bytes| {
          NextMultiple(q, Size());
          assert job.pos + w == (q + 1) * Size();
          CeilDivExceeds(job.pos + |bytes|, q + 1, Size());
          var next;
          next, ch' := Advance(cluster, false, job, s0, ch', q, w, job.Clusters());
          Facts();
          if next == 0 {
            break;
          }
          cluster, q, base := next, q + 1, base + Size();
        }
      }
    }

    /** As much of the rest of `bytes` as fits in the cluster number `q` of the file from `off` on. */
    method WritePiece(cluster: nat, off: nat, bytes: seq<Byte>, w: nat, ghost job: Job, ghost s0: Snapshot,
        ghost ch: seq<nat>, ghost q: nat, ghost base: nat) returns (t: nat)
      requires Valid() && table.dev.Reliable() && !table.readonly && w < |bytes|
      requires job.max == Max() && job.size == Size() && job.bytes == bytes
      requires Progress(job, s0, Snapshot(Fat(), data, ch), w) && q < |ch| && cluster == ch[q]
      requires off < Size() && base == q * Size() && job.pos + w == base + off
      modifies this`data, table.dev, buffer
      ensures Valid() && t == if Size() - off > |bytes| - w then |bytes| - w else Size() - off
      ensures Progress(job, s0, Snapshot(Fat(), data, ch), w + t)
    {
      hide Valid, ClusterSize, Progress, IsChain, Splice;
      t := if Size() - off > |bytes| - w then |bytes| - w else Size() - off;
      ProgressFacts(job, s0, Snapshot(Fat(), data, ch), w);
      ProgressPut(job, s0, Snapshot(Fat(), data, ch), w, q, off, bytes[w..w + t]);
      var r := PutPiece(cluster, off, bytes[w..w + t]);
    }

    function JobOf(offset: nat, bytes: seq<Byte>): Job
      requires Size() > 0
    {
      Job(Max(), Size(), WritePosition(offset, Size()), bytes)
    }

    /** The clusters this write has to add find room after the hint. */
    ghost predicate RoomFor(offset: nat, bytes: seq<Byte>, ch: seq<nat>)
      requires Valid()
      reads this, table, table.dev, table.cache, buffer
    {
      var need := JobOf(offset, bytes).Clusters();
      bytes != [] && need > |ch| ==> Room(Fat(), nextFree, Max(), need - |ch|)
    }

    /** The part of `fat32_write_file` after the argument checks. */
    method WriteSome(entry: FileEntry, offset: nat, bytes: seq<Byte>, ghost ch: seq<nat>)
      returns (r: int, entry': FileEntry, ghost ch': seq<nat>)
      requires Valid() && table.dev.Reliable() && HasChain(entry, Fat(), Max(), ch) && RoomFor(offset, bytes, ch)
      requires !table.readonly && bytes != []
      modifies this, table`fat, table.dev, table.cache, buffer
      ensures Valid() && HasChain(entry', Fat(), Max(), ch')
      ensures r == ERR_NOSPC || 0 < r <= |bytes|
      ensures r < |bytes| ==> FreeCount(Fat(), 2, Max()) == 0 && JobOf(offset, bytes).StopsAt(|ch'|, r)
      ensures Progress(JobOf(offset, bytes), Snapshot(old(Fat()), old(data), ch), Snapshot(Fat(), data, ch'),
                if r < 0 then 0 else r)
      ensures entry'.attr == entry.attr
      ensures entry'.size == if r > 0 then GrownSize(entry.size, offset, r) else entry.size
      ensures Spent(old(FreeAhead()), |ch|, ch', JobOf(offset, bytes).Clusters())
      ensures HintFrom(old(nextFree), ch')
      ensures old(CountExact()) ==> CountExact()
    {
      hide FatTable.Valid, DataOnDisk, FitsDevice, ClusterSize, FreeCount, Ahead, Progress, Room, IsChain, CeilDiv,
        FirstFreeFrom, GrownSize, Found, SearchEnds, SearchOk, Job.StopsAt;
      ghost var job, s0 := JobOf(offset, bytes), Snapshot(Fat(), data, ch);
      DataUniform(table.geo, table.dev.sectors, data);
      ProgressNone(job, s0);
      entry', ch' := entry, ch;
      var skip, off := offset / Size() % 0x1_0000_0000, offset % Size();
      CeilDivExceeds(job.pos + |bytes|, skip, Size());
      var cluster := entry.first;
      if cluster < 2 {
        ghost var hint := nextFree;
        RoomEnds(job.Clusters());
        cluster := AllocCluster();
        if cluster == 0 {
          StopsEarly(job, 0, skip, ERR_NOSPC);
          return ERR_NOSPC, entry', ch';
        }
        FirstFreeFacts(s0.fat, Max(), StartOf(hint), cluster);
        RoomStep(s0.fat, hint, Max(), job.Clusters(), cluster);
        AheadStep(s0.fat, hint, Max(), cluster);
        ProgressFirst(job, s0, cluster);
        entry', ch' := entry.(first := cluster), [cluster];
      } else {
        ChainNonEmpty(Fat(), Max(), ch);
      }
      var ok;
      ok, cluster, ch' := SkipTo(cluster, skip, job, s0, ch', job.Clusters());
      ProgressFacts(job, s0, Snapshot(Fat(), data, ch'), 0);
      if !ok {
        StopsEarly(job, |ch'|, skip, ERR_NOSPC);
        return ERR_NOSPC, entry', ch';
      }
      var w;
      w, ch' := WritePieces(cluster, off, bytes, job, s0, ch', skip);
      ProgressFacts(job, s0, Snapshot(Fat(), data, ch'), w);
      r, entry' := w, entry'.(size := GrownSize(entry.size, offset, w));
    }

    /**
     `fat32_write_file`, for any offset, length and chain. A partial result means the volume is full. In
     every case the file is still a chain that starts with its old clusters, the `r` bytes are in place,
     its other old bytes are untouched, and no other cluster or FAT entry changed.
     */
    method WriteFile(entry: FileEntry, offset: nat, bytes: seq<Byte>, ghost ch: seq<nat>)
      returns (r: int, entry': FileEntry, ghost ch': seq<nat>)
      requires Valid() && table.dev.Reliable() && HasChain(entry, Fat(), Max(), ch)
      requires table.readonly || entry.IsDirectory() || RoomFor(offset, bytes, ch)
      modifies this, table`fat, table.dev, table.cache, buffer
      ensures Valid() && HasChain(entry', Fat(), Max(), ch')
      ensures table.readonly ==> r == ERR_ROFS
      ensures !table.readonly && entry.IsDirectory() ==> r == ERR_ISDIR
      ensures !table.readonly && !entry.IsDirectory() ==> r == ERR_NOSPC || 0 <= r <= |bytes|
      ensures !table.readonly && !entry.IsDirectory() && bytes != [] && r < |bytes| ==>
                FreeCount(Fat(), 2, Max()) == 0 && JobOf(offset, bytes).StopsAt(|ch'|, r)
      ensures r == 0 ==> bytes == []
      ensures !table.readonly && !entry.IsDirectory() && bytes == [] ==> r == 0
      ensures table.readonly || entry.IsDirectory() || bytes == [] ==>
                entry' == entry && ch' == ch && Fat() == old(Fat()) && data == old(data)
      ensures Progress(JobOf(offset, bytes), Snapshot(old(Fat()), old(data), ch), Snapshot(Fat(), data, ch'),
                if r < 0 then 0 else r)
      ensures entry'.attr == entry.attr
      ensures entry'.size == if r > 0 then GrownSize(entry.size, offset, r) else entry.size
      ensures Spent(old(FreeAhead()), |ch|, ch', JobOf(offset, bytes).Clusters())
      ensures HintFrom(old(nextFree), ch')
      ensures old(CountExact()) ==> CountExact()
    {
      hide FatTable.Valid, DataOnDisk, FitsDevice, ClusterSize, FreeCount, Ahead, Progress, Room, IsChain, CeilDiv;
      DataUniform(table.geo, table.dev.sectors, data);
      ProgressNone(JobOf(offset, bytes), Snapshot(Fat(), data, ch));
      entry', ch' := entry, ch;
      if table.readonly {
        return ERR_ROFS, entry', ch';
      }
      if entry.IsDirectory() {
        return ERR_ISDIR, entry', ch';
      }
      if bytes == [] {
        return 0, entry', ch';
      }
      r, entry', ch' := WriteSome(entry, offset, bytes, ch);
    }

    /** The place `q` steps along a chain, as the read loops see it: past the end nothing is a data cluster. */
    ghost predicate At(ch: seq<nat>, q: nat, cluster: nat)
    {
      q <= |ch| && cluster < 0x1000_0000 && if q < |ch| then cluster == ch[q] else !InRange(Max(), cluster)
    }

    /** Follow the chain for up to `skip` steps. */
    method SkipForRead(first: nat, skip: nat, ghost ch: seq<nat>) returns (cluster: nat, ghost q: nat)
      requires Valid() && table.dev.Reliable() && IsChainOrEmpty(Fat(), Max(), ch) && At(ch, 0, first)
      modifies table`fat, table.dev, table.cache
      ensures Valid() && Fat() == old(Fat())
      ensures q == (if skip <= |ch| then skip else |ch|) && At(ch, q, cluster)
    {
      hide FatTable.WriteBackFails, FatTable.LoadFails, Reverts;
      hide FatTable.Valid, DataOnDisk, FitsDevice, ClusterSize, IsChain;
      cluster, q := first, 0;
      if ch != [] {
        ChainNonEmpty(Fat(), Max(), ch);
      }
      var left: nat := skip;
      while left > 0 && InRange(Max(), cluster)
        invariant Valid() && Fat() == old(Fat())
        invariant left + q == skip && At(ch, q, cluster)
      {
        ChainNext(Fat(), Max(), ch, q);
        cluster := NextCluster(cluster);
        left, q := left - 1, q + 1;
      }
    }

    /** Up to `left` bytes from byte `off` of the cluster number `q` of a chain. */
    method ReadPiece(cluster: nat, off: nat, left: nat, ghost ch: seq<nat>, ghost q: nat, ghost base: nat)
      returns (piece: seq<Byte>)
      requires Valid() && table.dev.Reliable() && Inside(data, ch) && q < |ch| && cluster == ch[q] && off < Size()
      requires base == q * Size()
      modifies buffer, table.dev`ops
      ensures Valid()
      ensures |piece| == if Size() - off > left then left else Size() - off
      ensures base + Size() <= |Content(data, ch)|
      ensures piece == Content(data, ch)[base + off..base + off + |piece|]
    {
      hide FatTable.Valid, DataOnDisk, FitsDevice, ClusterSize, Content;
      DataUniform(table.geo, table.dev.sectors, data);
      ContentBlock(data, ch, Size(), q);
      assert InRange(|data|, ch[q]);
      var r := ReadCluster(cluster);
      var t := if Size() - off > left then left else Size() - off;
      piece := buffer[off..off + t];
      SliceOfSlice(Content(data, ch), base, Size(), off, t);
      assert piece == buffer[..][off..off + t];
    }

    /** The read loop: from byte `off0` of cluster number `q0`, `n` bytes or as many as the chain holds. */
    method ReadPieces(start: nat, off0: nat, n: nat, ghost ch: seq<nat>, ghost q0: nat, ghost base0: nat)
      returns (out: seq<Byte>)
      requires Valid() && table.dev.Reliable() && IsChainOrEmpty(Fat(), Max(), ch) && Inside(data, ch)
      requires At(ch, q0, start) && off0 < Size() && base0 == q0 * Size()
      modifies buffer, table`fat, table.dev, table.cache
      ensures Valid() && Fat() == old(Fat())
      ensures q0 == |ch| ==> out == []
      ensures q0 < |ch| ==> IsRead(Content(data, ch), base0 + off0, n, out)
    {
      hide FatTable.WriteBackFails, FatTable.LoadFails, Reverts;
      hide Valid, IsChain, Content, Uniform, ClusterSize;
      Facts();
      ghost var content, base, q: nat := Content(data, ch), base0, q0;
      ghost var pos := base + off0;
      ContentLength(data, ch, Size());
      var cluster, off, left: nat := start, off0, n;
      out := [];
      if q < |ch| {
        ContentBlock(data, ch, Size(), q);
        assert InRange(|data|, ch[q]);
      }
      while left > 0 && InRange(Max(), cluster)
        invariant Valid() && Fat() == old(Fat()) && 0 <= off < Size()
        invariant q0 <= q && At(ch, q, cluster) && left + |out| == n
        invariant q0 == |ch| ==> out == []
        invariant q < |ch| ==> InRange(Max(), ch[q])
        invariant q > q0 && left > 0 ==> off == 0
        invariant base == q * Size()
        invariant q0 < |ch| && left > 0 ==> pos + |out| == base + off
        invariant q0 < |ch| ==> pos + |out| <= |content| && out == content[pos..pos + |out|]
      {
        var piece := ReadPiece(cluster, off, left, ch, q, base);
        SliceJoin(content, pos, pos + |out|, pos + |out| + |piece|);
        out := out + piece;
        left := left - |piece|;
        NextMultiple(q, Size());
        base, off := base + Size(), 0;
        ChainNext(Fat(), Max(), ch, q);
        cluster := NextCluster(cluster);
        q := q + 1;
      }
    }

    /**
     `fat32_read_file`: the bytes of the file's content from `offset`, bounded by the size field and by
     the chain.
     */
    method ReadFile(entry: FileEntry, offset: nat, len: nat, ghost ch: seq<nat>) returns (r: int, out: seq<Byte>)
      requires Valid() && table.dev.Reliable() && HasChain(entry, Fat(), Max(), ch)
      requires entry.first < 0x1000_0000 && entry.size < 0x1_0000_0000 && Inside(data, ch)
      modifies buffer, table`fat, table.dev, table.cache
      ensures Valid() && Fat() == old(Fat())
      ensures entry.IsDirectory() ==> r == ERR_ISDIR && out == []
      ensures !entry.IsDirectory() ==>
                r == |out| && IsRead(Content(data, ch), offset, ReadLength(entry.size, offset, len), out)
    {
      hide FatTable.Valid, DataOnDisk, FitsDevice, ClusterSize, IsChain, Content;
      out := [];
      if entry.IsDirectory() {
        return ERR_ISDIR, out;
      }
      var n := ReadLength(entry.size, offset, len);
      if n == 0 {
        return 0, out;
      }
      r, out := ReadSome(entry, offset, n, ch);
    }

    /** The part of `fat32_read_file` after the bounds checks. */
    method ReadSome(entry: FileEntry, offset: nat, n: nat, ghost ch: seq<nat>) returns (r: int, out: seq<Byte>)
      requires Valid() && table.dev.Reliable() && HasChain(entry, Fat(), Max(), ch)
      requires entry.first < 0x1000_0000 && Inside(data, ch)
      modifies buffer, table`fat, table.dev, table.cache
      ensures Valid() && Fat() == old(Fat())
      ensures r == |out| && IsRead(Content(data, ch), offset, n, out)
    {
      hide FatTable.Valid, DataOnDisk, FitsDevice, ClusterSize, IsChain, Content;
      DataUniform(table.geo, table.dev.sectors, data);
      ContentLength(data, ch, Size());
      OffsetSplit(offset, Size(), |ch|);
      if entry.first >= 2 {
        ChainNonEmpty(Fat(), Max(), ch);
      }
      var skip, off := offset / Size(), offset % Size();
      var cluster;
      ghost var q;
      cluster, q := SkipForRead(entry.first, skip, ch);
      out := ReadPieces(cluster, off, n, ch, q, q * Size());
      r := |out|;
    }

    /**
     Reading back the range of a write of `n` bytes yields the first `n` bytes written, whatever the
     offset, the length and the shape of the chain, for files within the 32-bit size field.
     */
    method WriteThenRead(entry: FileEntry, offset: nat, bytes: seq<Byte>, ghost ch: seq<nat>)
      returns (n: int, back: seq<Byte>, entry': FileEntry, ghost ch': seq<nat>)
      requires Valid() && table.dev.Reliable() && HasChain(entry, Fat(), Max(), ch)
      requires table.readonly || entry.IsDirectory() || RoomFor(offset, bytes, ch)
      requires offset + |bytes| < 0x1_0000_0000 && entry.size < 0x1_0000_0000
      modifies this, table`fat, table.dev, table.cache, buffer
      ensures Valid() && HasChain(entry', Fat(), Max(), ch')
      ensures n > 0 ==> n <= |bytes| && back == bytes[..n]
    {
      hide FatTable.Valid, DataOnDisk, FitsDevice, ClusterSize, FreeCount, Room, IsChain, Content, ReadLength,
        GrownSize, Progress, WritePosition, CeilDiv;
      n, entry', ch' := WriteFile(entry, offset, bytes, ch);
      back := [];
      if n > 0 {
        PositionExact(offset, Size());
        ProgressReadBack(JobOf(offset, bytes), Snapshot(old(Fat()), old(data), ch), Snapshot(Fat(), data, ch'), n);
        if entry'.first >= 2 {
          ChainNonEmpty(Fat(), Max(), ch');
        }
        var r;
        r, back := ReadFile(entry', offset, n, ch');
      }
    }

    /**
     `fat32_truncate_file`. The clusters dropped become free, and a count that was exact stays exact. A shrink to a
     non-zero size that needs two clusters or more cuts the chain one cluster short: of the clusters needed, all
     but the last are kept.
     */
    method Truncate(entry: FileEntry, newSize: nat, ghost ch: seq<nat>)
      returns (r: int, entry': FileEntry, ghost ch': seq<nat>)
      requires Valid() && table.dev.Reliable() && HasChain(entry, Fat(), Max(), ch)
      requires entry.first < 0x1000_0000 && entry.size < 0x1_0000_0000 && newSize < 0x1_0000_0000
      modifies this`freeClusters, this`fsinfoDirty, table`fat, table.dev, table.cache
      ensures Valid()
      ensures table.readonly ==> r == ERR_ROFS && entry' == entry && ch' == ch && Fat() == old(Fat())
      ensures !table.readonly ==>
                r == 0 && entry'.size == newSize && ch' == KeptClusters(ch, entry.size, newSize, Size())
      ensures entry'.attr == entry.attr && (table.readonly ==> entry'.size == entry.size)
      ensures ch' <= ch && Fat() == CutTable(old(Fat()), ch, |ch'|)
      ensures HasChain(entry', Fat(), Max(), ch')
      ensures old(CountExact()) ==> CountExact()
    {
      hide FatTable.Valid, DataOnDisk, FitsDevice, ClusterSize, FreeCount, CutTable, IsChain, FreedAll;
      r, entry', ch' := 0, entry, ch;
      CutNone(Fat(), ch);
      if table.readonly {
        return ERR_ROFS, entry, ch;
      }
      if newSize == entry.size {
        return;
      }
      if newSize == 0 {
        if entry.first >= 2 {
          WalkOfChain(Fat(), Max(), ch);
          r := FreeChain(entry.first);
        }
        entry', ch' := entry.(first := 0, size := 0), [];
        return;
      }
      if entry.first >= 2 {
        ChainNonEmpty(Fat(), Max(), ch);
      }
      if newSize < entry.size {
        ch' := Cut(entry.first, ClustersNeeded(newSize, Size()), ch);
      }
      entry' := entry.(size := newSize);
    }

    /** The shrinking branch: walk `needed - 1` links, close the chain before the cluster reached, free the rest. */
    method Cut(first: nat, needed: nat, ghost ch: seq<nat>) returns (ghost ch': seq<nat>)
      requires Valid() && table.dev.Reliable() && !table.readonly && IsChainOrEmpty(Fat(), Max(), ch)
      requires At(ch, 0, first)
      modifies this`freeClusters, this`fsinfoDirty, table`fat, table.dev, table.cache
      ensures Valid()
      ensures ch' == if 2 <= needed <= |ch| then ch[..needed - 1] else ch
      ensures IsChainOrEmpty(Fat(), Max(), ch') && Fat() == CutTable(old(Fat()), ch, |ch'|)
      ensures old(CountExact()) ==> CountExact()
    {
      hide Valid, FreeCount, IsChain, CutTable;
      ch' := ch;
      CutNone(Fat(), ch);
      var cluster, count, prev := WalkTo(first, needed, ch);
      if prev != 0 && InRange(Max(), cluster) {
        ch' := CutBefore(prev, cluster, ch, count - 1);
      }
    }

    /** The loop of the shrinking branch: the cluster reached, how many were counted, and the one before it, or 0. */
    method WalkTo(first: nat, needed: nat, ghost ch: seq<nat>) returns (cluster: nat, count: nat, prev: nat)
      requires Valid() && table.dev.Reliable() && IsChainOrEmpty(Fat(), Max(), ch) && At(ch, 0, first)
      modifies table`fat, table.dev, table.cache
      ensures Valid() && Fat() == old(Fat()) && 1 <= count <= |ch| + 1 && At(ch, count - 1, cluster)
      ensures if count == 1 then prev == 0 else InRange(Max(), prev) && prev == ch[count - 2]
      ensures InRange(Max(), cluster) ==> count - 1 < |ch| && count == if needed <= 1 then 1 else needed
      ensures !InRange(Max(), cluster) ==> count == |ch| + 1 && (count == 1 || count <= needed)
    {
      hide FatTable.WriteBackFails, FatTable.LoadFails, Reverts;
      hide Valid, IsChain;
      Facts();
      cluster, count, prev := first, 1, 0;
      if ch != [] {
        ChainNonEmpty(Fat(), Max(), ch);
      }
      while count < needed && InRange(Max(), cluster)
        invariant Valid() && Fat() == old(Fat())
        invariant 1 <= count <= |ch| + 1 && (count <= needed || count == 1) && At(ch, count - 1, cluster)
        invariant count - 1 < |ch| ==> InRange(Max(), cluster)
        invariant if count == 1 then prev == 0 else InRange(Max(), prev) && prev == ch[count - 2]
        decreases needed - count
      {
        ChainNext(Fat(), Max(), ch, count - 1);
        prev := cluster;
        cluster := NextCluster(cluster);
        count := count + 1;
      }
    }

    method CutBefore(prev: nat, cluster: nat, ghost ch: seq<nat>, ghost k: nat) returns (ghost ch': seq<nat>)
      requires Valid() && table.dev.Reliable() && !table.readonly && IsChain(Fat(), Max(), ch)
      requires 0 < k < |ch| && prev == ch[k - 1] && cluster == ch[k]
      modifies this`freeClusters, this`fsinfoDirty, table`fat, table.dev, table.cache
      ensures Valid()
      ensures ch' == ch[..k] && IsChain(Fat(), Max(), ch') && Fat() == CutTable(old(Fat()), ch, k)
      ensures old(CountExact()) ==> CountExact()
    {
      hide FatTable.WriteBackFails, FatTable.LoadFails, Reverts;
      hide Valid, FreeCount, IsChain, Walk, RunsIntoFree, FreedAll;
      Facts();
      ghost var fat0 := Fat();
      ChainNonEmpty(fat0, Max(), ch);
      ChainUsed(fat0, Max(), ch);
      assert InRange(Max(), ch[k - 1]) && InRange(Max(), ch[k]);
      ch' := ch[..k];
      SplitChain(fat0, Max(), ch, k);
      CutKeeps(fat0, Max(), ch, k);
      CloseKeepsCount(fat0, Max(), prev);
      var r := SetEntry(prev, CLUSTER_EOF);
      WalkOfChain(Fat(), Max(), ch[k..]);
      r := FreeChain(cluster);
    }
  }

  /** Closing a chain at a cluster in use changes no free count. */
  lemma CloseKeepsCount(fat: seq<nat>, max: nat, c: nat)
    requires max <= |fat| && InRange(max, c) && !IsFree(fat, c)
    ensures FreeCount(Linked(fat, c, CLUSTER_EOF), 2, max) == FreeCount(fat, 2, max)
  {
    FreeCountFrame(fat, Linked(fat, c, CLUSTER_EOF), 2, max);
  }

  lemma CutNone(fat: seq<nat>, ch: seq<nat>)
    ensures CutTable(fat, ch, |ch|) == fat && CutTable(fat, ch, 0) == FreedAll(fat, ch)
    ensures FreedAll(fat, []) == fat
  {
    assert ch[|ch|..] == [] && ch[0..] == ch;
  }
}
