/**
 Directory operations on a mounted volume: lookup, creation of plain files and deletion, each walking the
 clusters of the directory through the cluster buffer.
 */
module FatDirectory {
  import opened Bytes
  import opened FatTables
  import opened FatChains
  import opened FatFiles
  import opened FatVolume
  import opened ShortNames
  import opened Directory

  function RecordsOf(block: seq<Byte>): (recs: seq<Record>)
    ensures |recs| == |block| / 32
  {
    seq(|block| / 32, i requires 0 <= i < |block| / 32 => block[32 * i..32 * i + 32])
  }

  /** The records of every data cluster. */
  ghost function RecordData(data: seq<seq<Byte>>): (d: seq<seq<Record>>)
    ensures |d| == |data| && forall c :: 0 <= c < |data| ==> d[c] == RecordsOf(data[c])
  {
    seq(|data|, c requires 0 <= c < |data| => RecordsOf(data[c]))
  }

  /** The records of a directory, cluster after cluster. */
  ghost function DirRecords(data: seq<seq<Byte>>, ch: seq<nat>): seq<Record>
    requires Inside(data, ch)
  {
    Content(RecordData(data), ch)
  }

  lemma RecordsUniform(data: seq<seq<Byte>>, size: nat)
    requires Uniform(data, size)
    ensures Uniform(RecordData(data), size / 32)
  {
  }

  /** The records of the cluster number `q` of a directory. */
  lemma DirBlock(data: seq<seq<Byte>>, ch: seq<nat>, size: nat, q: nat)
    requires Inside(data, ch) && Uniform(data, size) && q < |ch|
    ensures var n, recs := size / 32, DirRecords(data, ch);
            && |recs| == |ch| * n && q * n + n <= |recs|
            && recs[q * n..q * n + n] == RecordsOf(data[ch[q]])
  {
    RecordsUniform(data, size);
    ContentLength(RecordData(data), ch, size / 32);
    ContentBlock(RecordData(data), ch, size / 32, q);
  }

  lemma DirLength(data: seq<seq<Byte>>, ch: seq<nat>, size: nat)
    requires Inside(data, ch) && Uniform(data, size)
    ensures |DirRecords(data, ch)| == |ch| * (size / 32)
  {
    RecordsUniform(data, size);
    ContentLength(RecordData(data), ch, size / 32);
  }

  /** `block` with the record in slot `i` replaced. */
  function PutRecord(block: seq<Byte>, i: nat, r: Record): (block': seq<Byte>)
    requires 32 * i + 32 <= |block|
    ensures |block'| == |block| && RecordsOf(block') == RecordsOf(block)[i := r]
  {
    var block' := Splice(block, 32 * i, r);
    PutRecordIs(block, i, r);
    block'
  }

  lemma PutRecordIs(block: seq<Byte>, i: nat, r: Record)
    requires 32 * i + 32 <= |block|
    ensures RecordsOf(Splice(block, 32 * i, r)) == RecordsOf(block)[i := r]
  {
    var block' := Splice(block, 32 * i, r);
    forall k | 0 <= k < |block| / 32
      ensures RecordsOf(block')[k] == RecordsOf(block)[i := r][k]
    {
      assert block'[32 * k..32 * k + 32] == if k == i then r else block[32 * k..32 * k + 32];
    }
  }

  /** Replacing one record of one cluster of a directory replaces that record of the directory. */
  lemma DirPut(data: seq<seq<Byte>>, ch: seq<nat>, size: nat, q: nat, i: nat, r: Record)
    requires Inside(data, ch) && Uniform(data, size) && Distinct(ch) && q < |ch| && i < size / 32
    ensures |data[ch[q]]| == size
    ensures var n, recs := size / 32, DirRecords(data, ch);
            && q * n + i < |recs|
            && DirRecords(data[ch[q] := PutRecord(data[ch[q]], i, r)], ch) == recs[q * n + i := r]
  {
    hide PutRecord, RecordsOf, Content;
    var n, recs, block := size / 32, DirRecords(data, ch), PutRecord(data[ch[q]], i, r);
    DirBlock(data, ch, size, q);
    RecordsUniform(data, size);
    ContentPut(RecordData(data), ch, n, q, RecordsOf(block));
    assert RecordData(data[ch[q] := block]) == RecordData(data)[ch[q] := RecordsOf(block)];
    PutInside(recs, q * n, n, i, r);
  }

  lemma PutInside<T>(s: seq<T>, base: nat, n: nat, i: nat, x: T)
    requires base + n <= |s| && i < n
    ensures s[..base] + s[base..base + n][i := x] + s[base + n..] == s[base + i := x]
  {
  }

  /** How a scan of one cluster ends: at an end mark, at a hit in slot `i`, or without either. */
  datatype Scan = EndMark(i: nat) | HitAt(i: nat) | NoneHere(i: nat)

  ghost predicate ScanIs(recs: seq<Record>, name: seq<Byte>, labels: bool, s: Scan)
  {
    && (forall j :: 0 <= j < s.i && j < |recs| ==> recs[j][0] != DIRENT_END && !Hit(name, labels, recs[j]))
    && match s
       case EndMark(i) => i < |recs| && recs[i][0] == DIRENT_END
       case HitAt(i) => i < |recs| && recs[i][0] != DIRENT_END && Hit(name, labels, recs[i])
       case NoneHere(i) => i == |recs|
  }

  /** The inner loop of lookups and deletions over the cluster buffer. */
  method ScanBlock(block: array<Byte>, name: seq<Byte>, labels: bool) returns (s: Scan)
    requires 0 !in name
    ensures ScanIs(RecordsOf(block[..]), name, labels, s)
  {
    hide Key;
    var n := block.Length / 32;
    ghost var recs := RecordsOf(block[..]);
    var i := 0;
    while i < n
      invariant 0 <= i <= n
      invariant forall j :: 0 <= j < i ==> recs[j][0] != DIRENT_END && !Hit(name, labels, recs[j])
    {
      var r: Record := block[32 * i..32 * i + 32];
      assert r == recs[i];
      if r[0] == DIRENT_END {
        return EndMark(i);
      }
      if Candidate(r, labels) {
        var d := Compare(name, Packed(r));
        if d == 0 {
          return HitAt(i);
        }
      }
      i := i + 1;
    }
    s := NoneHere(n);
  }

  lemma FindAtEnd(recs: seq<Record>, name: seq<Byte>, labels: bool)
    ensures Find(recs, name, labels, |recs|) == None
  {
  }

  /** A scan of one block of a directory, seen from the whole directory. */
  lemma ScanInDir(recs: seq<Record>, name: seq<Byte>, labels: bool, base: nat, block: seq<Record>, s: Scan)
    requires base + |block| <= |recs| && recs[base..base + |block|] == block && ScanIs(block, name, labels, s)
    ensures match s
            case EndMark(i) => Find(recs, name, labels, base) == None
            case HitAt(i) =>
              i < |block| && Find(recs, name, labels, base) == Some(base + i) && recs[base + i] == block[i]
            case NoneHere(i) => Find(recs, name, labels, base) == Find(recs, name, labels, base + |block|)
  {
    hide Hit;
    assert forall j :: base <= j < base + |block| ==> recs[j] == block[j - base];
    FindSkips(recs, name, labels, base, base + s.i);
  }

  /**
   The cluster loop shared by lookups and deletions. On a hit the cluster buffer holds the cluster with
   the record, in slot `i`; the record is number `index` of the directory.
   */
  method FindRecord(v: Volume, dirCluster: nat, name: seq<Byte>, labels: bool, ghost ch: seq<nat>)
    returns (found: bool, cluster: nat, i: nat, index: nat, ghost q: nat)
    requires v.Valid() && v.table.dev.Reliable() && 0 !in name
    requires IsChainOrEmpty(v.Fat(), v.Max(), ch) && v.At(ch, 0, dirCluster) && Inside(v.data, ch)
    modifies v.buffer, v.table`fat, v.table.dev, v.table.cache
    ensures v.Valid() && v.Fat() == old(v.Fat())
    ensures Find(DirRecords(v.data, ch), name, labels, 0) == if found then Some(index) else None
    ensures found ==> q < |ch| && cluster == ch[q] && i < v.Size() / 32 && index == q * (v.Size() / 32) + i
    ensures found ==> v.buffer[..] == v.data[cluster]
  {
    hide Volume.Valid, ClusterSize, IsChain, Content, Find, Hit, RecordsOf, ScanIs, FatTable.WriteBackFails,
      FatTable.LoadFails;
    v.Facts();
    ghost var recs, n := DirRecords(v.data, ch), v.Size() / 32;
    DirLength(v.data, ch, v.Size());
    FindAtEnd(recs, name, labels);
    if ch != [] {
      ChainNonEmpty(v.Fat(), v.Max(), ch);
    }
    found, cluster, i, index, q := false, dirCluster, 0, 0, 0;
    while InRange(v.Max(), cluster)
      invariant v.Valid() && v.Fat() == old(v.Fat()) && v.At(ch, q, cluster)
      invariant index == q * n
      invariant Find(recs, name, labels, 0) == Find(recs, name, labels, index)
      decreases |ch| - q
    {
      DirBlock(v.data, ch, v.Size(), q);
      ChainNext(v.Fat(), v.Max(), ch, q);
      var r := v.ReadCluster(cluster);
      var s := ScanBlock(v.buffer, name, labels);
      ScanInDir(recs, name, labels, index, RecordsOf(v.buffer[..]), s);
      match s {
        case EndMark(_) =>
          return;
        case HitAt(k) =>
          found, i, index := true, k, index + k;
          return;
        case NoneHere(_) =>
      }
      NextMultiple(q, n);
      index, q := index + v.buffer.Length / 32, q + 1;
      cluster := v.NextCluster(cluster);
    }
  }

  /** `fat32_find_entry_in_dir`: lookup in the name map of the directory. */
  method FindEntry(v: Volume, dirCluster: nat, name: seq<Byte>, ghost ch: seq<nat>)
    returns (r: int, rec: Record, index: nat)
    requires v.Valid() && v.table.dev.Reliable() && 0 !in name
    requires IsChainOrEmpty(v.Fat(), v.Max(), ch) && v.At(ch, 0, dirCluster) && Inside(v.data, ch)
    modifies v.buffer, v.table`fat, v.table.dev, v.table.cache
    ensures v.Valid() && v.Fat() == old(v.Fat())
    ensures r == 0 || r == ERR_NOENT
    ensures r == 0 <==> Upper(name) in NameMap(DirRecords(v.data, ch))
    ensures r == 0 ==> rec == NameMap(DirRecords(v.data, ch))[Upper(name)]
    ensures r == 0 ==> index < |DirRecords(v.data, ch)| && rec == DirRecords(v.data, ch)[index]
    ensures r == 0 ==> Shows(DirRecords(v.data, ch), name, false, index)
    ensures r != 0 ==> forall k: nat :: !Shows(DirRecords(v.data, ch), name, false, k)
  {
    hide Volume.Valid, ClusterSize, IsChain, Content, NameMap, RecordsOf, Uniform, Upper, Shows, Find;
    v.Facts();
    FindExact(DirRecords(v.data, ch), name, false);
    FindIsMapLookup(DirRecords(v.data, ch), name);
    var found, cluster, i;
    ghost var q;
    found, cluster, i, index, q := FindRecord(v, dirCluster, name, false, ch);
    rec := seq(32, _ => 0);
    if !found {
      return ERR_NOENT, rec, index;
    }
    RecordAt(v.data, ch, v.Size(), q, i, index);
    rec := v.buffer[32 * i..32 * i + 32];
    assert rec == v.buffer[..][32 * i..32 * i + 32];
    r := 0;
  }

  /** Record `i` of the cluster number `q` of a directory, by its bytes. */
  lemma RecordAt(data: seq<seq<Byte>>, ch: seq<nat>, size: nat, q: nat, i: nat, index: nat)
    requires Inside(data, ch) && Uniform(data, size) && q < |ch| && i < size / 32 && index == q * (size / 32) + i
    ensures var block := data[ch[q]];
            && 32 * i + 32 <= |block| && index < |DirRecords(data, ch)|
            && DirRecords(data, ch)[index] == block[32 * i..32 * i + 32]
  {
    hide RecordsOf, Content;
    var n, recs, base := size / 32, DirRecords(data, ch), q * (size / 32);
    DirBlock(data, ch, size, q);
    SlotInBuffer(data[ch[q]], i);
    InBlock(recs, base, n, i);
  }

  lemma InBlock<T>(s: seq<T>, base: nat, n: nat, i: nat)
    requires base + n <= |s| && i < n
    ensures s[base..base + n][i] == s[base + i]
  {
  }

  lemma SlotInBuffer(block: seq<Byte>, i: nat)
    requires i < |block| / 32
    ensures 32 * i + 32 <= |block| && RecordsOf(block)[i] == block[32 * i..32 * i + 32]
  {
  }

  /** The inner loop of a creation: the first unused slot of the buffer. */
  method ScanUnused(block: array<Byte>) returns (i: nat)
    ensures i == FirstUnused(RecordsOf(block[..]), 0)
  {
    hide FirstUnused;
    var n := block.Length / 32;
    ghost var recs := RecordsOf(block[..]);
    i := 0;
    while i < n
      invariant 0 <= i <= n && forall j :: 0 <= j < i ==> !Unused(recs[j])
    {
      var r: Record := block[32 * i..32 * i + 32];
      assert r == recs[i];
      if Unused(r) {
        break;
      }
      i := i + 1;
    }
    FirstUnusedSkips(recs, 0, i);
    FirstUnusedHere(recs, i);
  }

  lemma FirstUnusedHere(recs: seq<Record>, i: nat)
    requires i <= |recs| && (i < |recs| ==> Unused(recs[i]))
    ensures FirstUnused(recs, i) == i
  {
  }

  /** The first unused slot of one block of a directory, seen from the whole directory. */
  lemma UnusedInDir(recs: seq<Record>, base: nat, block: seq<Record>)
    requires base + |block| <= |recs| && recs[base..base + |block|] == block
    ensures var i := FirstUnused(block, 0);
            FirstUnused(recs, base) == if i < |block| then base + i else FirstUnused(recs, base + |block|)
  {
    hide FirstUnused;
    var i := FirstUnused(block, 0);
    assert forall j :: base <= j < base + |block| ==> recs[j] == block[j - base];
    FirstUnusedSkips(recs, base, base + i);
    if i < |block| {
      FirstUnusedHere(recs, base + i);
    }
  }

  /** The cluster loop of a creation: the first unused slot, or the last cluster of a full directory. */
  method FindSlot(v: Volume, parent: nat, ghost ch: seq<nat>) returns (found: bool, cluster: nat, i: nat, ghost q: nat)
    requires v.Valid() && v.table.dev.Reliable()
    requires IsChain(v.Fat(), v.Max(), ch) && ch[0] == parent && Inside(v.data, ch)
    modifies v.buffer, v.table`fat, v.table.dev, v.table.cache
    ensures v.Valid() && v.Fat() == old(v.Fat())
    ensures var n, recs := v.Size() / 32, DirRecords(v.data, ch);
            && |recs| == |ch| * n
            && (found ==> q < |ch| && cluster == ch[q] && i < n && FirstUnused(recs, 0) == q * n + i < |recs|)
            && (!found ==> cluster == ch[|ch| - 1] && FirstUnused(recs, 0) == |recs|)
    ensures found ==> v.buffer[..] == v.data[cluster]
  {
    hide Volume.Valid, ClusterSize, IsChain, Content, FirstUnused, RecordsOf, FatTable.WriteBackFails,
      FatTable.LoadFails, Uniform;
    v.Facts();
    ChainNonEmpty(v.Fat(), v.Max(), ch);
    ghost var recs, n, index: nat := DirRecords(v.data, ch), v.Size() / 32, 0;
    DirLength(v.data, ch, v.Size());
    FirstUnusedHere(recs, |recs|);
    var next := parent;
    found, cluster, i, q := false, 0, 0, 0;
    while InRange(v.Max(), next)
      invariant v.Valid() && v.Fat() == old(v.Fat()) && v.At(ch, q, next)
      invariant q > 0 ==> cluster == ch[q - 1]
      invariant index == q * n <= |recs| && FirstUnused(recs, 0) == FirstUnused(recs, index)
      decreases |ch| - q
    {
      ChainNext(v.Fat(), v.Max(), ch, q);
      cluster := next;
      var r := v.ReadCluster(cluster);
      i := ScanUnused(v.buffer);
      UnusedInCluster(v.data, ch, v.Size(), q, index, v.buffer[..]);
      if i < v.buffer.Length / 32 {
        found := true;
        return;
      }
      index, q := index + n, q + 1;
      next := v.NextCluster(cluster);
    }
  }

  /** The first unused slot of one cluster, seen from the whole directory. */
  lemma UnusedInCluster(data: seq<seq<Byte>>, ch: seq<nat>, size: nat, q: nat, index: nat, block: seq<Byte>)
    requires Inside(data, ch) && Uniform(data, size) && q < |ch| && index == q * (size / 32) && block == data[ch[q]]
    ensures var n, recs, i := size / 32, DirRecords(data, ch), FirstUnused(RecordsOf(block), 0);
            && index + n == (q + 1) * n <= |recs|
            && FirstUnused(recs, index) == (if i < n then index + i else FirstUnused(recs, index + n))
            && (i < n ==> index + i < |recs|)
  {
    hide Content, RecordsOf, FirstUnused;
    DirBlock(data, ch, size, q);
    NextMultiple(q, size / 32);
    UnusedInDir(DirRecords(data, ch), index, RecordsOf(block));
  }

  /** Write a record into slot `i` of the cluster held in the buffer, and the buffer back to the device. */
  method StoreRecord(v: Volume, cluster: nat, i: nat, rec: Record)
    requires v.Valid() && v.table.dev.Reliable() && !v.table.readonly && InRange(v.Max(), cluster)
    requires i < v.Size() / 32
    modifies v.buffer, v`data, v.table.dev
    ensures v.Valid() && v.data == old(v.data)[cluster := PutRecord(old(v.buffer[..]), i, rec)]
  {
    hide FatTable.Valid, DataOnDisk, FitsDevice, ClusterSize, RecordsOf;
    ghost var block := v.buffer[..];
    forall j | 0 <= j < 32 {
      v.buffer[32 * i + j] := rec[j];
    }
    assert v.buffer[..] == Splice(block, 32 * i, rec);
    var r := v.WriteCluster(cluster);
  }

  /** The record in slot `i` of the cluster in the buffer, number `q` of the directory, is replaced. */
  method PutInSlot(v: Volume, cluster: nat, i: nat, rec: Record, ghost ch: seq<nat>, ghost q: nat, ghost index: nat)
    requires v.Valid() && v.table.dev.Reliable() && !v.table.readonly && IsChain(v.Fat(), v.Max(), ch)
    requires Inside(v.data, ch)
    requires q < |ch| && cluster == ch[q] && i < v.Size() / 32 && index == q * (v.Size() / 32) + i
    requires v.buffer[..] == v.data[cluster]
    modifies v.buffer, v`data, v.table.dev
    ensures v.Valid() && Inside(v.data, ch) && index < |old(DirRecords(v.data, ch))|
    ensures DirRecords(v.data, ch) == old(DirRecords(v.data, ch))[index := rec]
    ensures OnlyDirChanged(v.Fat(), old(v.data), v.Fat(), v.data, v.Max(), ch, ch)
  {
    hide Volume.Valid, ClusterSize, IsChain, Content, RecordsOf, PutRecord, Uniform, OnlyDirChanged;
    v.Facts();
    ghost var data0 := v.data;
    ChainNonEmpty(v.Fat(), v.Max(), ch);
    ChainDistinct(v.Fat(), v.Max(), ch);
    DirPut(data0, ch, v.Size(), q, i, rec);
    StoreRecord(v, cluster, i, rec);
    OnlyOneCluster(v.Fat(), data0, v.Max(), ch, q, v.data[cluster]);
  }

  /** No cluster and no FAT entry outside the directory changed. */
  ghost predicate OnlyDirChanged(fat0: seq<nat>, data0: seq<seq<Byte>>, fat1: seq<nat>, data1: seq<seq<Byte>>,
      max: nat, ch0: seq<nat>, ch1: seq<nat>)
  {
    && Grown(fat0, fat1, max, ch0, ch1)
    && |data1| == |data0| && forall c :: 2 <= c < |data0| && c !in ch1 ==> data1[c] == data0[c]
  }

  lemma NothingChanged(fat: seq<nat>, data: seq<seq<Byte>>, max: nat, ch: seq<nat>)
    requires IsChain(fat, max, ch)
    ensures OnlyDirChanged(fat, data, fat, data, max, ch, ch)
  {
    GrownRefl(fat, max, ch);
  }

  lemma OnlyOneCluster(fat: seq<nat>, data: seq<seq<Byte>>, max: nat, ch: seq<nat>, q: nat, block: seq<Byte>)
    requires IsChain(fat, max, ch) && q < |ch| && Inside(data, ch)
    ensures OnlyDirChanged(fat, data, fat, data[ch[q] := block], max, ch, ch)
  {
    assert ch[q] in ch;
  }

  /** A zeroed cluster with one record in its first slot. */
  lemma FreshBlock(size: nat, rec: Record)
    requires size % 32 == 0 && size > 0
    ensures var zeros: seq<Byte> := seq(size, _ => 0);
            RecordsOf(PutRecord(zeros, 0, rec)) == [rec] + seq(size / 32 - 1, _ => seq(32, _ => 0))
  {
    var zeros: seq<Byte> := seq(size, _ => 0);
    var blank: Record := seq(32, _ => 0);
    forall k | 0 <= k < size / 32
      ensures RecordsOf(zeros)[k] == blank
    {
      assert zeros[32 * k..32 * k + 32] == blank;
    }
  }

  lemma SizeAligned(geo: Geometry)
    ensures ClusterSize(geo) % 32 == 0
  {
    var k := geo.sectorsPerCluster * 16;
    assert ClusterSize(geo) == 32 * k;
    WholeRecords(k);
  }

  lemma WholeRecords(k: nat)
    ensures 32 * k % 32 == 0
  {
  }

  lemma DirAppend(data: seq<seq<Byte>>, ch: seq<nat>, c: nat, block: seq<Byte>)
    requires Inside(data, ch) && InRange(|data|, c) && c !in ch
    ensures Inside(data[c := block], ch + [c])
    ensures DirRecords(data[c := block], ch + [c]) == DirRecords(data, ch) + RecordsOf(block)
  {
    hide RecordsOf;
    var data' := data[c := block];
    ContentFrame(RecordData(data), RecordData(data'), ch);
    assert (ch + [c])[..|ch|] == ch;
  }

  /** The part of a creation that adds a cluster to a full directory. */
  method AppendCluster(v: Volume, last: nat, rec: Record, ghost ch: seq<nat>) returns (r: int, ghost ch': seq<nat>)
    requires v.Valid() && v.table.dev.Reliable() && !v.table.readonly
    requires IsChain(v.Fat(), v.Max(), ch) && last == ch[|ch| - 1] && Inside(v.data, ch)
    requires Room(v.Fat(), v.nextFree, v.Max(), 1)
    modifies v, v.buffer, v.table`fat, v.table.dev, v.table.cache
    ensures v.Valid() && IsChain(v.Fat(), v.Max(), ch') && Inside(v.data, ch')
    ensures r == 0 || r == ERR_NOSPC
    ensures r != 0 ==> ch' == ch && v.Fat() == old(v.Fat()) && v.data == old(v.data)
    ensures r != 0 ==> FreeCount(v.Fat(), 2, v.Max()) == 0
    ensures r == 0 ==> v.Size() / 32 > 0
                       && DirRecords(v.data, ch') ==
                           old(DirRecords(v.data, ch)) + [rec] + seq(v.Size() / 32 - 1, _ => seq(32, _ => 0))
    ensures OnlyDirChanged(old(v.Fat()), old(v.data), v.Fat(), v.data, v.Max(), ch, ch')
  {
    hide FatTable.Valid, DataOnDisk, FitsDevice, IsChain, Content, RecordsOf, FreeCount, Room, PutRecord, Grown,
      ClusterSize, Uniform;
    ghost var fat0, data0 := v.Fat(), v.data;
    GrownRefl(fat0, v.Max(), ch);
    DataUniform(v.table.geo, v.table.dev.sectors, data0);
    ch' := ch;
    var c := LinkCluster(v, last, ch);
    if c == 0 {
      return ERR_NOSPC, ch';
    }
    ch' := ch + [c];
    GrownChain(fat0, v.Fat(), v.Max(), ch, ch');
    FirstRecord(v, c, rec);
    DirAppend(data0, ch, c, v.data[c]);
    assert c in ch';
    r := 0;
  }

  /** A free cluster is allocated and linked after the last one of the chain. */
  method LinkCluster(v: Volume, last: nat, ghost ch: seq<nat>) returns (c: nat)
    requires v.Valid() && v.table.dev.Reliable() && !v.table.readonly
    requires IsChain(v.Fat(), v.Max(), ch) && last == ch[|ch| - 1] && Room(v.Fat(), v.nextFree, v.Max(), 1)
    modifies v, v.table`fat, v.table.dev, v.table.cache
    ensures v.Valid() && v.data == old(v.data)
    ensures c == 0 ==> v.Fat() == old(v.Fat()) && FreeCount(v.Fat(), 2, v.Max()) == 0
    ensures c != 0 ==> InRange(v.Max(), c) && c !in ch && Grown(old(v.Fat()), v.Fat(), v.Max(), ch, ch + [c])
  {
    hide Volume.Valid, IsChain, FreeCount, Room, FirstFreeFrom, Found, Volume.SearchEnds, SearchOk;
    v.Facts();
    ghost var fat0, hint := v.Fat(), v.nextFree;
    ChainNonEmpty(fat0, v.Max(), ch);
    ChainUsed(fat0, v.Max(), ch);
    GrownRefl(fat0, v.Max(), ch);
    v.RoomEnds(1);
    c := v.AllocCluster();
    if c == 0 {
      return;
    }
    FirstFreeFacts(fat0, v.Max(), StartOf(hint), c);
    GrownStep(fat0, fat0, v.Max(), ch, ch, c);
    var r := v.SetEntry(last, c);
  }

  /** A cluster is filled with zeros and a record in its first slot. */
  method FirstRecord(v: Volume, c: nat, rec: Record)
    requires v.Valid() && v.table.dev.Reliable() && !v.table.readonly && InRange(v.Max(), c)
    modifies v.buffer, v`data, v.table.dev
    ensures v.Valid() && v.data == old(v.data)[c := v.data[c]] && v.Size() / 32 > 0
    ensures RecordsOf(v.data[c]) == [rec] + seq(v.Size() / 32 - 1, _ => seq(32, _ => 0))
  {
    hide FatTable.Valid, DataOnDisk, FitsDevice, RecordsOf, PutRecord, ClusterSize, Uniform;
    DataUniform(v.table.geo, v.table.dev.sectors, v.data);
    forall j | 0 <= j < v.buffer.Length {
      v.buffer[j] := 0;
    }
    assert v.buffer[..] == seq(v.Size(), _ => 0);
    SizeAligned(v.table.geo);
    FreshBlock(v.Size(), rec);
    StoreRecord(v, c, 0, rec);
  }

  /**
   `fat32_create_entry` for a plain file: the record goes to the first unused slot, or to the first slot of
   a zeroed cluster added to a full directory.
   */
  method CreateEntry(v: Volume, parent: nat, name: seq<Byte>, attr: Byte, ghost ch: seq<nat>)
    returns (r: int, rec: Record, ghost ch': seq<nat>)
    requires v.Valid() && v.table.dev.Reliable()
    requires IsChain(v.Fat(), v.Max(), ch) && ch[0] == parent && Inside(v.data, ch) && attr / 16 % 2 == 0
    requires !v.table.readonly && FirstUnused(DirRecords(v.data, ch), 0) == |DirRecords(v.data, ch)| ==>
              Room(v.Fat(), v.nextFree, v.Max(), 1)
    modifies v, v.buffer, v.table`fat, v.table.dev, v.table.cache
    ensures v.Valid() && IsChain(v.Fat(), v.Max(), ch') && Inside(v.data, ch')
    ensures v.table.readonly ==> r == ERR_ROFS
    ensures !v.table.readonly ==> r == 0 || r == ERR_NOSPC
    ensures r != 0 ==> ch' == ch && v.Fat() == old(v.Fat()) && v.data == old(v.data)
    ensures r == ERR_NOSPC ==>
              var recs := old(DirRecords(v.data, ch)); FreeCount(v.Fat(), 2, v.Max()) == 0 && Taken(recs, |recs|)
    ensures r == 0 ==> rec == NewRecord(name, attr) && v.Size() / 32 > 0
                       && DirRecords(v.data, ch') == Created(old(DirRecords(v.data, ch)), rec, v.Size() / 32)
    ensures OnlyDirChanged(old(v.Fat()), old(v.data), v.Fat(), v.data, v.Max(), ch, ch')
  {
    hide Volume.Valid, ClusterSize, IsChain, Content, FirstUnused, RecordsOf, FreeCount, Room, NewRecord, PutRecord,
      Uniform, OnlyDirChanged, Created, Encode, DirRecords;
    v.Facts();
    ChainNonEmpty(v.Fat(), v.Max(), ch);
    NothingChanged(v.Fat(), v.data, v.Max(), ch);
    rec, ch' := NewRecord(name, attr), ch;
    if v.table.readonly {
      return ERR_ROFS, rec, ch';
    }
    var packed := ToShortName(name);
    ghost var data0 := v.data;
    var found, cluster, i;
    ghost var q;
    found, cluster, i, q := FindSlot(v, parent, ch);
    if found {
      rec := packed + [attr] + seq(20, _ => 0);
      NewRecordIs(name, attr);
      CreatedIs(DirRecords(data0, ch), rec, v.Size() / 32);
      PutInSlot(v, cluster, i, rec, ch, q, FirstUnused(DirRecords(data0, ch), 0));
      r := 0;
    } else {
      CreatedIs(DirRecords(data0, ch), rec, v.Size() / 32);
      r, ch' := AppendCluster(v, cluster, rec, ch);
    }
  }

  /** Attribute bit 4 marks a directory. */
  lemma DirectoryBit(attr: Byte, low: nat, bit: bool, high: nat)
    requires low < 16 && attr == low + (if bit then 16 else 0) + 32 * high
    ensures FileEntry(0, 0, attr).IsDirectory() <==> bit
  {
  }

  /** What a deletion frees: the clusters met from the first cluster of the record hit on. */
  ghost function Dropped(fat: seq<nat>, max: nat, r: Record): seq<nat>
    requires 2 <= max <= |fat|
  {
    if FirstCluster(r) < 2 then [] else Walk(fat, max, FirstCluster(r))
  }

  /**
   `fat32_delete_entry`, whatever clusters the record names: the record hit is erased and the clusters met from its
   first one on are freed. The directory is still a chain if none of them is its own.
   */
  method DeleteEntry(v: Volume, parent: nat, name: seq<Byte>, ghost ch: seq<nat>) returns (r: int, ghost slot: nat)
    requires v.Valid() && v.table.dev.Reliable() && 0 !in name
    requires IsChainOrEmpty(v.Fat(), v.Max(), ch) && v.At(ch, 0, parent) && Inside(v.data, ch)
    requires match Find(DirRecords(v.data, ch), name, true, 0)
             case None => true
             case Some(k) => FirstCluster(DirRecords(v.data, ch)[k]) < 0x1000_0000
    modifies v, v.buffer, v.table`fat, v.table.dev, v.table.cache
    ensures v.Valid() && Inside(v.data, ch)
    ensures v.table.readonly ==> r == ERR_ROFS
    ensures !v.table.readonly ==>
              r == if old(Find(DirRecords(v.data, ch), name, true, 0)).None? then ERR_NOENT else 0
    ensures r != 0 ==> v.Fat() == old(v.Fat()) && v.data == old(v.data)
    ensures r == 0 ==> var recs := old(DirRecords(v.data, ch));
                       && Find(recs, name, true, 0) == Some(slot) && 2 <= v.Max() <= |old(v.Fat())|
                       && DirRecords(v.data, ch) == recs[slot := Erased(recs[slot])]
                       && v.Fat() == FreedAll(old(v.Fat()), Dropped(old(v.Fat()), v.Max(), recs[slot]))
                       && (DisjointChains(Dropped(old(v.Fat()), v.Max(), recs[slot]), ch) ==>
                             IsChainOrEmpty(v.Fat(), v.Max(), ch))
    ensures r == 0 ==> var recs, max := old(DirRecords(v.data, ch)), v.Max();
                       && Shows(recs, name, true, slot) && (forall k: nat :: k < slot ==> !Shows(recs, name, true, k))
                       && forall c: nat :: NamesCluster(recs[slot], c) ==>
                            v.Fat() == FreedAll(old(v.Fat()), if c < 2 then [] else Walk(old(v.Fat()), max, c))
    ensures r == ERR_NOENT ==> forall k: nat :: !Shows(old(DirRecords(v.data, ch)), name, true, k)
    ensures |v.data| == |old(v.data)| && forall c :: 2 <= c < |v.data| && c !in ch ==> v.data[c] == old(v.data)[c]
  {
    hide Volume.Valid, ClusterSize, IsChain, Content, Find, RecordsOf, FreedAll, FirstCluster, PutRecord, Walk,
      RunsIntoFree, FreeCount, DisjointChains, Shows, NamesCluster;
    slot := 0;
    FindExact(DirRecords(v.data, ch), name, true);
    if v.table.readonly {
      return ERR_ROFS, slot;
    }
    v.Facts();
    ghost var fat0, data0, recs := v.Fat(), v.data, DirRecords(v.data, ch);
    var found, cluster, i, index;
    ghost var q;
    found, cluster, i, index, q := FindRecord(v, parent, name, true, ch);
    if !found {
      return ERR_NOENT, slot;
    }
    slot := index;
    ChainNonEmpty(fat0, v.Max(), ch);
    ChainDistinct(fat0, v.Max(), ch);
    RecordAt(data0, ch, v.Size(), q, i, index);
    var rec: Record := v.buffer[32 * i..32 * i + 32];
    assert rec == v.buffer[..][32 * i..32 * i + 32] == recs[index];
    var first := FirstCluster(rec);
    FreedNone(fat0);
    if first >= 2 {
      r := v.FreeChain(first);
    }
    ghost var dropped := Dropped(fat0, v.Max(), rec);
    forall c: nat | NamesCluster(rec, c) ensures dropped == if c < 2 then [] else Walk(fat0, v.Max(), c) {
      FirstClusterIs(rec, c);
    }
    if DisjointChains(dropped, ch) {
      FreeSpares(fat0, v.Max(), dropped, ch);
    }
    DirPut(data0, ch, v.Size(), q, i, Erased(rec));
    StoreRecord(v, cluster, i, Erased(rec));
    assert ch[q] in ch;
    r := 0;
  }

  lemma CreatedIs(recs: seq<Record>, r: Record, n: nat)
    ensures n > 0 ==> var k := FirstUnused(recs, 0);
              Created(recs, r, n) == if k < |recs| then recs[k := r] else recs + [r] + seq(n - 1, _ => seq(32, _ => 0))
  {
  }

  lemma NewRecordIs(name: seq<Byte>, attr: Byte)
    ensures NewRecord(name, attr) == Encode(name) + [attr] + seq(20, _ => 0)
  {
  }
}
