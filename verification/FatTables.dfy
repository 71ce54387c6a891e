/**
 The FAT part of `fat32_fs_t`: sixteen write-back cache slots over the sectors of the first FAT.
 The ghost field `fat` is the table the driver's clients see, one 32-bit word per cluster number;
 `Valid` ties it to the slots and to the sectors on the device.
 */
module FatTables {
  import opened Bytes
  import opened BlockDevice

  const CLUSTER_FREE: nat := 0
  const CLUSTER_BAD: nat := 0x0FFF_FFF7
  const CLUSTER_EOF_MIN: nat := 0x0FFF_FFF8
  const CLUSTER_EOF: nat := 0x0FFF_FFFF

  const ERR_NOENT: int := -2
  const ERR_IO: int := -5
  const ERR_ISDIR: int := -21
  const ERR_INVAL: int := -22
  const ERR_NOSPC: int := -28
  const ERR_ROFS: int := -30

  datatype Slot = Slot(sector: nat, dirty: bool, valid: bool, data: Sector)

  /** The geometry computed at mount time; sizes and positions are in sectors or clusters. */
  datatype Geometry = Geometry(
    fatStart: nat, fatSectors: nat, numFats: nat, dataStart: nat, sectorsPerCluster: nat, totalClusters: nat)
  {
    /** One past the last data cluster. */
    function MaxCluster(): nat { 2 + totalClusters }

    predicate WellFormed() {
      && fatStart > 0 && numFats > 0 && sectorsPerCluster > 0
      && fatStart + fatSectors <= dataStart
      && (numFats > 1 ==> fatStart + 2 * fatSectors <= dataStart)
      && MaxCluster() <= fatSectors * 128
      && MaxCluster() <= CLUSTER_BAD
    }
  }

  predicate IsEof(entry: nat) {
    Low28(entry) >= CLUSTER_EOF_MIN
  }

  /** The FAT entry number `w` of a FAT sector. */
  function EntryIn(s: Sector, w: nat): (e: nat)
    requires w < 128
    ensures e < 0x1_0000_0000
  {
    Word(s, 4 * w)
  }

  /** `s` holds the words of FAT sector `k` of the table `fat`. */
  ghost predicate Encodes(s: Sector, fat: seq<nat>, k: nat)
  {
    && (k + 1) * 128 <= |fat|
    && forall w :: 0 <= w < 128 ==> EntryIn(s, w) == fat[128 * k + w]
  }

  ghost predicate Dirty(slots: seq<Slot>, sector: nat)
  {
    exists i :: 0 <= i < |slots| && slots[i].dirty && slots[i].sector == sector
  }

  ghost predicate Holds(slots: seq<Slot>, sector: nat)
  {
    exists i :: 0 <= i < |slots| && slots[i].valid && slots[i].sector == sector
  }

  /** At most one valid slot holds a sector; what is dirty is valid; only FAT sectors are cached. */
  ghost predicate SlotsWellFormed(slots: seq<Slot>, geo: Geometry)
  {
    && |slots| == 16
    && (forall i :: 0 <= i < |slots| && slots[i].dirty ==> slots[i].valid)
    && (forall i :: 0 <= i < |slots| && slots[i].valid ==>
        geo.fatStart <= slots[i].sector < geo.fatStart + geo.fatSectors)
    && (forall i, j :: 0 <= i < j < |slots| && slots[i].valid && slots[j].valid ==> slots[i].sector != slots[j].sector)
  }

  ghost predicate SlotsEncode(slots: seq<Slot>, geo: Geometry, fat: seq<nat>)
  {
    forall i :: 0 <= i < |slots| && slots[i].valid && geo.fatStart <= slots[i].sector ==>
      Encodes(slots[i].data, fat, slots[i].sector - geo.fatStart)
  }

  /** Every sector of the first FAT is up to date on the device unless a dirty slot holds it. */
  ghost predicate DiskEncodes(slots: seq<Slot>, geo: Geometry, sectors: seq<Sector>, fat: seq<nat>)
  {
    && geo.fatStart + geo.fatSectors <= |sectors|
    && forall s :: geo.fatStart <= s < geo.fatStart + geo.fatSectors ==>
      Dirty(slots, s) || Encodes(sectors[s], fat, s - geo.fatStart)
  }

  /** The first FAT as it stands on the device. */
  ghost function OnDisk(geo: Geometry, sectors: seq<Sector>): (fat: seq<nat>)
    requires geo.fatStart + geo.fatSectors <= |sectors|
    ensures |fat| == geo.fatSectors * 128
  {
    seq(geo.fatSectors * 128, c requires 0 <= c < geo.fatSectors * 128 =>
      EntryIn(sectors[geo.fatStart + c / 128], c % 128))
  }

  /** Entry `c` is the little-endian word at byte `4 * c` of the first FAT. */
  lemma OnDiskBytes(geo: Geometry, sectors: seq<Sector>, c: nat)
    requires geo.fatStart + geo.fatSectors <= |sectors| && c < geo.fatSectors * 128
    ensures var w, s, at := OnDisk(geo, sectors)[c], geo.fatStart + 4 * c / 512, 4 * c % 512;
            && s < |sectors| && at + 4 <= 512
            && w % 0x100 == sectors[s][at] && w / 0x100 % 0x100 == sectors[s][at + 1]
            && w / 0x1_0000 % 0x100 == sectors[s][at + 2] && w / 0x100_0000 == sectors[s][at + 3]
  {
    hide Word;
    assert 4 * c / 512 == c / 128 && 4 * c % 512 == 4 * (c % 128) by { WordPlace(c); }
    WordOrder(sectors[geo.fatStart + c / 128], 4 * (c % 128));
  }

  lemma WordPlace(c: nat)
    ensures 4 * c / 512 == c / 128 && 4 * c % 512 == 4 * (c % 128)
  {
    DivModUnique(4 * c, c / 128, 4 * (c % 128), 512);
  }

  /** The special entry values and the error codes, as numbers. */
  lemma SpecialEntries(e: nat)
    ensures IsEof(e) <==> e % 0x1000_0000 >= 0x0FFF_FFF8
    ensures CLUSTER_FREE == 0 && CLUSTER_BAD == 0x0FFF_FFF7 && CLUSTER_EOF == 0x0FFF_FFFF
    ensures ERR_NOENT == -2 && ERR_IO == -5 && ERR_ISDIR == -21 && ERR_INVAL == -22 && ERR_NOSPC == -28
    ensures ERR_ROFS == -30
  {
  }

  /** `fat` with the words of FAT sector `k` replaced by those stored in `s`. */
  ghost function Reverted(fat: seq<nat>, k: nat, s: Sector): (r: seq<nat>)
    requires (k + 1) * 128 <= |fat|
    ensures |r| == |fat| && Encodes(s, r, k)
    ensures forall c :: 0 <= c < |fat| && c / 128 != k ==> r[c] == fat[c]
  {
    seq(|fat|, c requires 0 <= c < |fat| =>
      if c / 128 == k then EntryIn(s, c % 128) else fat[c])
  }

  /** Nothing outside the FAT area changed. */
  ghost predicate SameOutsideFat(geo: Geometry, s: seq<Sector>, t: seq<Sector>)
  {
    && |s| == |t|
    && forall i :: 0 <= i < |s| && !(geo.fatStart <= i < geo.dataStart) ==> s[i] == t[i]
  }

  lemma SameOutsideFatRefl(geo: Geometry, s: seq<Sector>)
    ensures SameOutsideFat(geo, s, s)
  {
  }

  lemma SameOutsideFatTrans(geo: Geometry, s: seq<Sector>, t: seq<Sector>, u: seq<Sector>)
    requires SameOutsideFat(geo, s, t) && SameOutsideFat(geo, t, u)
    ensures SameOutsideFat(geo, s, u)
  {
  }

  lemma DiskEncodesItself(geo: Geometry, sectors: seq<Sector>, k: nat)
    requires geo.fatStart + geo.fatSectors <= |sectors| && k < geo.fatSectors
    ensures Encodes(sectors[geo.fatStart + k], OnDisk(geo, sectors), k)
  {
    var s := sectors[geo.fatStart + k];
    forall w | 0 <= w < 128
      ensures EntryIn(s, w) == OnDisk(geo, sectors)[128 * k + w]
    {
      assert (128 * k + w) / 128 == k;
    }
  }

  /** An empty cache stands for the table on the device. */
  lemma EmptyCache(slots: seq<Slot>, geo: Geometry, sectors: seq<Sector>)
    requires |slots| == 16 && forall i :: 0 <= i < 16 ==> !slots[i].valid && !slots[i].dirty
    requires geo.fatStart + geo.fatSectors <= |sectors|
    ensures SlotsWellFormed(slots, geo) && SlotsEncode(slots, geo, OnDisk(geo, sectors))
    ensures DiskEncodes(slots, geo, sectors, OnDisk(geo, sectors))
  {
    hide OnDisk, Encodes;
    forall s | geo.fatStart <= s < geo.fatStart + geo.fatSectors
      ensures Encodes(sectors[s], OnDisk(geo, sectors), s - geo.fatStart)
    {
      DiskEncodesItself(geo, sectors, s - geo.fatStart);
    }
  }

  lemma EncodesFrame(s: Sector, fat: seq<nat>, fat': seq<nat>, k: nat)
    requires Encodes(s, fat, k) && |fat'| == |fat|
    requires forall c :: 0 <= c < |fat| && c / 128 == k ==> fat'[c] == fat[c]
    ensures Encodes(s, fat', k)
  {
    forall w | 0 <= w < 128
      ensures EntryIn(s, w) == fat'[128 * k + w]
    {
      assert (128 * k + w) / 128 == k;
    }
  }

  lemma EncodesPut(s: Sector, fat: seq<nat>, k: nat, w: nat, v: nat)
    requires Encodes(s, fat, k) && w < 128 && v < 0x1_0000_0000
    ensures Encodes(PutWord(s, 4 * w, v), fat[128 * k + w := v], k)
  {
    var t: Sector, fat' := PutWord(s, 4 * w, v), fat[128 * k + w := v];
    forall u | 0 <= u < 128
      ensures EntryIn(t, u) == fat'[128 * k + u]
    {
      assert EntryIn(s, u) == fat[128 * k + u];
    }
  }

  lemma NoDirtyMeansOnDisk(slots: seq<Slot>, geo: Geometry, sectors: seq<Sector>, fat: seq<nat>)
    requires DiskEncodes(slots, geo, sectors, fat) && |fat| == geo.fatSectors * 128
    requires forall i :: 0 <= i < |slots| ==> !slots[i].dirty
    ensures OnDisk(geo, sectors) == fat
  {
    forall c | 0 <= c < |fat|
      ensures OnDisk(geo, sectors)[c] == fat[c]
    {
      var k := c / 128;
      assert Encodes(sectors[geo.fatStart + k], fat, geo.fatStart + k - geo.fatStart);
      assert c == 128 * k + c % 128;
    }
  }

  /** Writing a dirty slot back and marking it clean changes nothing the clients see. */
  lemma EvictedKeeps(slots: seq<Slot>, geo: Geometry, sectors: seq<Sector>, fat: seq<nat>, v: nat)
    requires SlotsWellFormed(slots, geo) && SlotsEncode(slots, geo, fat) && DiskEncodes(slots, geo, sectors, fat)
    requires v < |slots| && slots[v].dirty
    ensures var slots', sectors' := slots[v := slots[v].(dirty := false)], sectors[slots[v].sector := slots[v].data];
            SlotsWellFormed(slots', geo) && SlotsEncode(slots', geo, fat) && DiskEncodes(slots', geo, sectors', fat)
  {
    var slots', sectors' := slots[v := slots[v].(dirty := false)], sectors[slots[v].sector := slots[v].data];
    forall s | geo.fatStart <= s < geo.fatStart + geo.fatSectors
      ensures Dirty(slots', s) || Encodes(sectors'[s], fat, s - geo.fatStart)
    {
      if s != slots[v].sector && Dirty(slots, s) {
        var i :| 0 <= i < |slots| && slots[i].dirty && slots[i].sector == s;
        assert slots'[i].dirty && slots'[i].sector == s;
      }
    }
  }

  /** Loading a sector no slot holds into a clean slot changes nothing the clients see. */
  lemma LoadedKeeps(slots: seq<Slot>, geo: Geometry, sectors: seq<Sector>, fat: seq<nat>, v: nat, sector: nat)
    requires SlotsWellFormed(slots, geo) && SlotsEncode(slots, geo, fat) && DiskEncodes(slots, geo, sectors, fat)
    requires v < |slots| && !slots[v].dirty && !Holds(slots, sector)
    requires geo.fatStart <= sector < geo.fatStart + geo.fatSectors
    ensures var slots' := slots[v := Slot(sector, false, true, sectors[sector])];
            SlotsWellFormed(slots', geo) && SlotsEncode(slots', geo, fat) && DiskEncodes(slots', geo, sectors, fat)
  {
    var slots' := slots[v := Slot(sector, false, true, sectors[sector])];
    forall s | geo.fatStart <= s < geo.fatStart + geo.fatSectors
      ensures Dirty(slots', s) || Encodes(sectors[s], fat, s - geo.fatStart)
    {
      if Dirty(slots, s) {
        var i :| 0 <= i < |slots| && slots[i].dirty && slots[i].sector == s;
        assert slots'[i].dirty && slots'[i].sector == s;
      }
    }
  }

  /** `fat'` differs from `fat` at most in FAT sector `k`. */
  ghost predicate AgreeOutside(fat: seq<nat>, fat': seq<nat>, k: nat)
  {
    |fat| == |fat'| && forall c :: 0 <= c < |fat| && c / 128 != k ==> fat'[c] == fat[c]
  }

  lemma SlotsAgree(slots: seq<Slot>, geo: Geometry, fat: seq<nat>, fat': seq<nat>, k: nat)
    requires SlotsEncode(slots, geo, fat) && AgreeOutside(fat, fat', k)
    requires !Holds(slots, geo.fatStart + k)
    ensures SlotsEncode(slots, geo, fat')
  {
    forall i | 0 <= i < |slots| && slots[i].valid && geo.fatStart <= slots[i].sector
      ensures Encodes(slots[i].data, fat', slots[i].sector - geo.fatStart)
    {
      assert slots[i].sector != geo.fatStart + k;
      EncodesFrame(slots[i].data, fat, fat', slots[i].sector - geo.fatStart);
    }
  }

  lemma DiskAgrees(slots: seq<Slot>, geo: Geometry, sectors: seq<Sector>, fat: seq<nat>, fat': seq<nat>, k: nat)
    requires DiskEncodes(slots, geo, sectors, fat) && AgreeOutside(fat, fat', k) && k < geo.fatSectors
    requires Dirty(slots, geo.fatStart + k) || Encodes(sectors[geo.fatStart + k], fat', k)
    ensures DiskEncodes(slots, geo, sectors, fat')
  {
    forall s | geo.fatStart <= s < geo.fatStart + geo.fatSectors
      ensures Dirty(slots, s) || Encodes(sectors[s], fat', s - geo.fatStart)
    {
      if s != geo.fatStart + k && !Dirty(slots, s) {
        EncodesFrame(sectors[s], fat, fat', s - geo.fatStart);
      }
    }
  }

  lemma RevertedAgrees(fat: seq<nat>, k: nat, s: Sector)
    requires (k + 1) * 128 <= |fat|
    ensures AgreeOutside(fat, Reverted(fat, k, s), k)
  {
  }

  /** Forgetting a dirty slot without a write-back leaves its sector as it is on the device. */
  lemma DroppedKeeps(slots: seq<Slot>, slots': seq<Slot>, geo: Geometry, sectors: seq<Sector>, fat: seq<nat>,
      fat': seq<nat>, v: nat)
    requires SlotsWellFormed(slots, geo) && SlotsEncode(slots, geo, fat) && DiskEncodes(slots, geo, sectors, fat)
    requires v < |slots| && slots[v].dirty && slots' == slots[v := slots[v].(dirty := false, valid := false)]
    requires AgreeOutside(fat, fat', slots[v].sector - geo.fatStart)
    requires Encodes(sectors[slots[v].sector], fat', slots[v].sector - geo.fatStart)
    ensures SlotsWellFormed(slots', geo) && SlotsEncode(slots', geo, fat') && DiskEncodes(slots', geo, sectors, fat')
  {
    var k := slots[v].sector - geo.fatStart;
    SlotsAgree(slots', geo, fat, fat', k);
    forall s | geo.fatStart <= s < geo.fatStart + geo.fatSectors
      ensures Dirty(slots', s) || Encodes(sectors[s], fat', s - geo.fatStart)
    {
      if s != slots[v].sector {
        if Dirty(slots, s) {
          var i :| 0 <= i < |slots| && slots[i].dirty && slots[i].sector == s;
          assert slots'[i].dirty && slots'[i].sector == s;
        } else {
          EncodesFrame(sectors[s], fat, fat', s - geo.fatStart);
        }
      }
    }
  }

  /**
   Marking a dirty slot clean without a write-back leaves a cache that agrees with the device if and only if
   the device already had the slot's sector.
   */
  lemma ForgottenKeeps(slots: seq<Slot>, geo: Geometry, sectors: seq<Sector>, fat: seq<nat>, v: nat)
    requires SlotsWellFormed(slots, geo) && SlotsEncode(slots, geo, fat) && DiskEncodes(slots, geo, sectors, fat)
    requires v < |slots| && slots[v].dirty
    ensures var slots' := slots[v := slots[v].(dirty := false)];
            && SlotsWellFormed(slots', geo) && SlotsEncode(slots', geo, fat) && !Dirty(slots', slots[v].sector)
            && (DiskEncodes(slots', geo, sectors, fat) <==>
                Encodes(sectors[slots[v].sector], fat, slots[v].sector - geo.fatStart))
  {
    var slots' := slots[v := slots[v].(dirty := false)];
    assert !Dirty(slots', slots[v].sector);
    forall s | geo.fatStart <= s < geo.fatStart + geo.fatSectors && s != slots[v].sector && Dirty(slots, s)
      ensures Dirty(slots', s)
    {
      var i :| 0 <= i < |slots| && slots[i].dirty && slots[i].sector == s;
      assert slots'[i].dirty && slots'[i].sector == s;
    }
  }

  /** A change outside the first FAT does not disturb it. */
  lemma DiskFrame(slots: seq<Slot>, geo: Geometry, sectors: seq<Sector>, sectors': seq<Sector>, fat: seq<nat>)
    requires DiskEncodes(slots, geo, sectors, fat) && |sectors| == |sectors'|
    requires forall s :: geo.fatStart <= s < geo.fatStart + geo.fatSectors ==> sectors'[s] == sectors[s]
    ensures DiskEncodes(slots, geo, sectors', fat)
  {
  }

  lemma SlotWord(slots: seq<Slot>, geo: Geometry, fat: seq<nat>, i: nat, cluster: nat)
    requires SlotsEncode(slots, geo, fat) && i < |slots| && slots[i].valid
    requires slots[i].sector == geo.fatStart + cluster / 128
    ensures cluster < |fat| && EntryIn(slots[i].data, cluster % 128) == fat[cluster]
  {
    assert Encodes(slots[i].data, fat, slots[i].sector - geo.fatStart);
    assert cluster == 128 * (cluster / 128) + cluster % 128;
  }

  /** Changing one word of a cached sector and marking it dirty changes that one entry. */
  lemma StoredKeeps(slots: seq<Slot>, geo: Geometry, sectors: seq<Sector>, fat: seq<nat>, i: nat, cluster: nat,
      word: nat)
    requires SlotsWellFormed(slots, geo) && SlotsEncode(slots, geo, fat) && DiskEncodes(slots, geo, sectors, fat)
    requires i < |slots| && slots[i].valid && slots[i].sector == geo.fatStart + cluster / 128
    requires cluster < |fat| && word < 0x1_0000_0000
    ensures var s := slots[i].(data := PutWord(slots[i].data, 4 * (cluster % 128), word), dirty := true);
            var slots', fat' := slots[i := s], fat[cluster := word];
            SlotsWellFormed(slots', geo) && SlotsEncode(slots', geo, fat') && DiskEncodes(slots', geo, sectors, fat')
  {
    hide DiskEncodes, Encodes, PutWord, EntryIn;
    var k, w := cluster / 128, cluster % 128;
    var s := slots[i].(data := PutWord(slots[i].data, 4 * w, word), dirty := true);
    var slots', fat' := slots[i := s], fat[cluster := word];
    var others := slots[i := slots[i].(valid := false)];
    InSectorOnly(fat, cluster, word);
    SlotsAgree(others, geo, fat, fat', k);
    assert Encodes(slots[i].data, fat, slots[i].sector - geo.fatStart);
    assert cluster == 128 * k + w;
    EncodesPut(slots[i].data, fat, k, w, word);
    forall j | 0 <= j < |slots'| && slots'[j].valid
      ensures Encodes(slots'[j].data, fat', slots'[j].sector - geo.fatStart)
    {
      assert j != i ==> others[j] == slots'[j];
    }
    assert slots'[i].dirty && slots'[i].sector == geo.fatStart + k;
    StoredDisk(slots, slots', geo, sectors, fat);
    DiskAgrees(slots', geo, sectors, fat, fat', k);
  }

  lemma InSectorOnly(fat: seq<nat>, cluster: nat, word: nat)
    requires cluster < |fat|
    ensures AgreeOutside(fat, fat[cluster := word], cluster / 128)
  {
  }

  lemma StoredDisk(slots: seq<Slot>, slots': seq<Slot>, geo: Geometry, sectors: seq<Sector>, fat: seq<nat>)
    requires DiskEncodes(slots, geo, sectors, fat) && |slots| == |slots'|
    requires forall i :: 0 <= i < |slots| && slots[i].dirty ==> slots'[i].dirty && slots'[i].sector == slots[i].sector
    ensures DiskEncodes(slots', geo, sectors, fat)
  {
    forall s | geo.fatStart <= s < geo.fatStart + geo.fatSectors && Dirty(slots, s)
      ensures Dirty(slots', s)
    {
      var i :| 0 <= i < |slots| && slots[i].dirty && slots[i].sector == s;
      assert slots'[i].dirty && slots'[i].sector == s;
    }
  }

  datatype FatOp = Load(cluster: nat) | Put(cluster: nat, value: nat) | Sync

  predicate InTable(op: FatOp, n: nat) {
    op.Sync? || op.cluster < n
  }

  /** What a refused write-back loses: FAT sector `k` goes back to `sector`, as it is on the device. */
  datatype Loss = Nothing | Lost(k: nat, sector: Sector)

  /**
   An operation done: its result, what it lost, and the numbers of the device operations done before it and before
   the next one.
   */
  datatype Done = Done(op: FatOp, out: int, loss: Loss, first: nat, next: nat)

  ghost function AfterLoss(fat: seq<nat>, loss: Loss): (r: seq<nat>)
    ensures |r| == |fat|
  {
    if loss.Lost? && (loss.k + 1) * 128 <= |fat| then Reverted(fat, loss.k, loss.sector) else fat
  }

  /** What an operation does to the table: a write that returned 0 changes it, and so does a loss. */
  ghost function AfterOp(fat: seq<nat>, d: Done): (r: seq<nat>)
    requires InTable(d.op, |fat|)
    ensures |r| == |fat|
  {
    var kept := AfterLoss(fat, d.loss);
    if d.op.Put? && d.out == 0 then kept[d.op.cluster := MergeEntry(kept[d.op.cluster], d.op.value)] else kept
  }

  ghost predicate AllInTable(log: seq<Done>, n: nat)
  {
    forall i :: 0 <= i < |log| ==> InTable(log[i].op, n)
  }

  /** The table after a sequence of operations, without any cache. */
  ghost function AfterOps(fat: seq<nat>, log: seq<Done>): (r: seq<nat>)
    requires AllInTable(log, |fat|)
    ensures |r| == |fat|
  {
    if log == [] then fat else AfterOp(AfterOps(fat, log[..|log| - 1]), log[|log| - 1])
  }

  lemma AfterOpsStep(fat: seq<nat>, log: seq<Done>, d: Done)
    requires AllInTable(log, |fat|) && InTable(d.op, |fat|)
    ensures AfterOps(fat, log + [d]) == AfterOp(AfterOps(fat, log), d)
  {
    assert (log + [d])[..|log|] == log;
  }

  /**
   The value of entry `c` in 28 bits, from the history alone: what the last successful write stored there or, if its
   sector was lost since, what the device held; the value it started with if there was neither.
   */
  function LastValue(fat: seq<nat>, log: seq<Done>, c: nat): nat
    requires c < |fat|
  {
    if log == [] then Low28(fat[c])
    else
      var d := log[|log| - 1];
      if d.op.Put? && d.op.cluster == c && d.out == 0 then Low28(d.op.value)
      else if d.loss.Lost? && (d.loss.k + 1) * 128 <= |fat| && c / 128 == d.loss.k
      then Low28(EntryIn(d.loss.sector, c % 128))
      else LastValue(fat, log[..|log| - 1], c)
  }

  lemma RevertedEntry(fat: seq<nat>, k: nat, s: Sector, c: nat)
    requires (k + 1) * 128 <= |fat| && c < |fat|
    ensures Reverted(fat, k, s)[c] == if c / 128 == k then EntryIn(s, c % 128) else fat[c]
  {
  }

  /** What a read sees after a run is that value, and without a loss the top four bits never change. */
  lemma {:induction false} LastValueIs(fat: seq<nat>, log: seq<Done>, c: nat)
    requires AllInTable(log, |fat|) && c < |fat|
    ensures Low28(AfterOps(fat, log)[c]) == LastValue(fat, log, c)
    ensures (forall i :: 0 <= i < |log| ==> log[i].loss == Nothing) ==>
              AfterOps(fat, log)[c] / 0x1000_0000 == fat[c] / 0x1000_0000
  {
    hide EntryIn, Reverted;
    if log != [] {
      var before, d := log[..|log| - 1], log[|log| - 1];
      LastValueIs(fat, before, c);
      if d.loss.Lost? && (d.loss.k + 1) * 128 <= |fat| {
        RevertedEntry(AfterOps(fat, before), d.loss.k, d.loss.sector, c);
      }
    }
  }

  /** How many of the first `i` slots are dirty. */
  function DirtyBefore(slots: seq<Slot>, i: nat): nat
    requires i <= |slots|
  {
    if i == 0 then 0 else DirtyBefore(slots, i - 1) + if slots[i - 1].dirty then 1 else 0
  }

  class FatTable {
    const dev: Device
    const geo: Geometry
    const cache: array<Slot>
    var readonly: bool
    ghost var fat: seq<nat>

    ghost predicate Valid()
      reads this, dev, cache
    {
      && geo.WellFormed()
      && geo.dataStart <= |dev.sectors|
      && |fat| == geo.fatSectors * 128
      && cache.Length == 16 && SlotsWellFormed(cache[..], geo)
      && SlotsEncode(cache[..], geo, fat)
      && DiskEncodes(cache[..], geo, dev.sectors, fat)
    }

    /** Mount with an empty cache: the logical table is the one on the device. */
    constructor (dev: Device, geo: Geometry)
      requires geo.WellFormed() && geo.dataStart <= |dev.sectors|
      ensures Valid() && fresh(cache) && cache.Length == 16 && this.dev == dev && this.geo == geo && !readonly
      ensures fat == OnDisk(geo, dev.sectors) && forall i :: 0 <= i < 16 ==> !cache[i].valid
    {
      hide SlotsWellFormed, SlotsEncode, DiskEncodes, OnDisk;
      this.dev, this.geo, readonly := dev, geo, false;
      cache := new Slot[16](_ => Slot(0, false, false, seq(512, _ => 0)));
      fat := OnDisk(geo, dev.sectors);
      new;
      EmptyCache(cache[..], geo, dev.sectors);
    }

    /** The slot a miss will reuse: the last invalid one, or slot 0. */
    static ghost predicate IsVictim(slots: seq<Slot>, v: nat)
    {
      && v < |slots|
      && (if slots[v].valid then v == 0 && forall i :: 0 <= i < |slots| ==> slots[i].valid
          else forall i :: v < i < |slots| ==> slots[i].valid)
    }

    static lemma VictimUnique(slots: seq<Slot>, v: nat)
      requires IsVictim(slots, v)
      ensures forall u: nat :: IsVictim(slots, u) ==> u == v
    {
    }

    /** The cache search shared by reads and writes of an entry. */
    method Locate(sector: nat) returns (hit: bool, slot: nat)
      requires cache.Length == 16
      ensures slot < 16
      ensures hit == Holds(cache[..], sector)
      ensures hit ==> cache[slot].valid && cache[slot].sector == sector
      ensures !hit ==> IsVictim(cache[..], slot)
    {
      slot := 0;
      var i := 0;
      while i < 16
        invariant 0 <= i <= 16 && slot < 16
        invariant forall j :: 0 <= j < i ==> !(cache[j].valid && cache[j].sector == sector)
        invariant slot != 0 ==> slot < i && !cache[slot].valid
        invariant forall j :: slot < j < i ==> cache[j].valid
        invariant slot == 0 && i > 0 && cache[0].valid ==> forall j :: 0 <= j < i ==> cache[j].valid
      {
        if cache[i].valid && cache[i].sector == sector {
          assert cache[..][i].valid && cache[..][i].sector == sector;
          return true, i;
        }
        if !cache[i].valid {
          slot := i;
        }
        i := i + 1;
      }
      hit := false;
    }

    static function SectorOf(geo: Geometry, cluster: nat): nat {
      geo.fatStart + cluster / 128
    }

    ghost predicate Misses(cluster: nat)
      reads this, cache
    {
      !Holds(cache[..], SectorOf(geo, cluster))
    }

    /** The slot a miss would reuse holds changes that are not on the device. */
    ghost predicate EvictsDirty()
      reads this, cache
    {
      exists v: nat :: IsVictim(cache[..], v) && cache[..][v].dirty
    }

    /** The device refuses the load of this entry's sector. */
    ghost predicate LoadFails(cluster: nat)
      reads this, dev, cache
    {
      Misses(cluster) && dev.fails(dev.ops + if EvictsDirty() then 1 else 0)
    }

    /** The device refuses the write-back that must precede the load. */
    ghost predicate WriteBackFails(cluster: nat)
      reads this, dev, cache
    {
      Misses(cluster) && EvictsDirty() && dev.fails(dev.ops)
    }

    /** The device refuses an operation numbered from `lo` up to, not including, `hi`. */
    ghost predicate Refuses(lo: nat, hi: nat)
    {
      exists n :: lo <= n < hi && dev.fails(n)
    }

    /**
     Slot `v` has been marked clean without a write-back: no slot will bring its sector to the device any more, and
     the cache agrees with the device if and only if the device has that sector already.
     */
    ghost predicate Forgotten(slots: seq<Slot>, v: nat)
      reads this, dev, cache
    {
      && v < |slots| && cache[..] == slots[v := slots[v].(dirty := false)] && !Dirty(cache[..], slots[v].sector)
      && (Valid() <==> geo.fatStart <= slots[v].sector < |dev.sectors|
                       && Encodes(dev.sectors[slots[v].sector], fat, slots[v].sector - geo.fatStart))
    }

    /**
     The miss path of a read: evict the victim and load `sector` in its place. A refused write-back is
     ignored: once the slot is reused the changes it held are lost, and if the load is refused too the
     slot keeps them but is no longer marked dirty.
     */
    method LoadForRead(sector: nat, slot: nat) returns (ok: bool)
      requires Valid() && geo.fatStart <= sector < geo.fatStart + geo.fatSectors
      requires slot < cache.Length && !Holds(cache[..], sector)
      modifies this`fat, dev, cache
      ensures SameOutsideFat(geo, old(dev.sectors), dev.sectors)
      ensures dev.ops == old(dev.ops) + if old(cache[slot].dirty) then 2 else 1
      ensures ok == !dev.fails(old(dev.ops) + if old(cache[slot].dirty) then 1 else 0)
      ensures ok ==>
                && sector < |dev.sectors|
                && cache[..] == old(cache[..])[slot := Slot(sector, false, true, dev.sectors[sector])]
      ensures !(old(cache[slot].dirty) && dev.fails(old(dev.ops))) ==> Valid() && fat == old(fat)
      ensures old(cache[slot].dirty) && dev.fails(old(dev.ops)) ==> dev.sectors == old(dev.sectors)
      ensures ok && old(cache[slot].dirty) && dev.fails(old(dev.ops)) ==>
                var lost := old(cache[slot].sector);
                Valid() && fat == Reverted(old(fat), lost - geo.fatStart, old(dev.sectors)[lost])
      ensures !ok && old(cache[slot].dirty) && dev.fails(old(dev.ops)) ==>
                fat == old(fat) && Forgotten(old(cache[..]), slot)
    {
      hide SlotsEncode, DiskEncodes, Reverted, SlotsWellFormed, Holds, AgreeOutside, Encodes;
      ghost var slots0, fat0, victim := cache[..], fat, cache[slot];
      EncodesBack(slot);
      var written := WriteBack(slot);
      ghost var slots1, sectors1 := cache[..], dev.sectors;
      var bytes;
      ok, bytes := dev.ReadSectors(sector, 1);
      if ok {
        SpanOne(dev.sectors, sector);
        if !written {
          fat := Reverted(fat0, victim.sector - geo.fatStart, sectors1[victim.sector]);
          RevertedAgrees(fat0, victim.sector - geo.fatStart, sectors1[victim.sector]);
          slots1 := slots0[slot := victim.(dirty := false, valid := false)];
          DroppedKeeps(slots0, slots1, geo, sectors1, fat0, fat, slot);
        }
        NotHeld(slots0, slots1, slot, sector);
        LoadedKeeps(slots1, geo, dev.sectors, fat, slot, sector);
        cache[slot] := Slot(sector, false, true, bytes);
        assert cache[..] == slots1[slot := Slot(sector, false, true, dev.sectors[sector])];
      }
    }

    lemma EncodesBack(slot: nat)
      requires Valid() && slot < cache.Length
      ensures cache[slot].dirty ==> geo.fatStart <= cache[slot].sector < geo.fatStart + geo.fatSectors <= |dev.sectors|
      ensures cache[slot].dirty ==> (cache[slot].sector - geo.fatStart + 1) * 128 <= |fat|
    {
      assert cache[..][slot] == cache[slot];
    }

    lemma NotHeld(slots: seq<Slot>, slots': seq<Slot>, slot: nat, sector: nat)
      requires slot < |slots| && !Holds(slots, sector) && |slots'| == |slots|
      requires slots' == slots[slot := slots'[slot]] && slots'[slot].sector == slots[slot].sector
      requires slots'[slot].valid ==> slots[slot].valid
      ensures !Holds(slots', sector)
    {
    }

    /** The write-back of a slot that a read is about to reuse; whether it was refused is not looked at. */
    method WriteBack(slot: nat) returns (written: bool)
      requires Valid() && slot < cache.Length
      modifies dev, cache
      ensures SameOutsideFat(geo, old(dev.sectors), dev.sectors)
      ensures written == !(old(cache[slot].dirty) && dev.fails(old(dev.ops)))
      ensures dev.ops == old(dev.ops) + if old(cache[slot].dirty) then 1 else 0
      ensures cache[..] == old(cache[..])[slot := old(cache[slot]).(dirty := false)]
      ensures written ==> Valid()
      ensures !written ==> dev.sectors == old(dev.sectors) && Forgotten(old(cache[..]), slot)
    {
      hide SlotsEncode, DiskEncodes;
      ghost var slots0, sectors0 := cache[..], dev.sectors;
      var victim := cache[slot];
      written := true;
      if victim.dirty {
        written := dev.WriteSectors(victim.sector, victim.data);
        cache[slot] := victim.(dirty := false);
        if written {
          OverlayOne(sectors0, victim.sector, victim.data);
          EvictedKeeps(slots0, geo, sectors0, fat, slot);
        } else {
          ForgottenKeeps(slots0, geo, sectors0, fat, slot);
        }
      }
      assert cache[..] == slots0[slot := victim.(dirty := false)];
    }

    /**
     `fat32_read_fat_entry`. The table is unchanged, and the masked word is returned, or the BAD marker
     when the sector could not be loaded. The one exception is a refused write-back, which is ignored here.
     If the load succeeds, the changes the slot held are lost: its sector reverts to what is on the device.
     If the load is refused as well, the slot keeps them, marked clean: no flush will write them, and the
     cache still agrees with the device if and only if there was nothing to write.
     */
    method ReadEntry(cluster: nat) returns (entry: nat)
      requires Valid() && cluster < |fat|
      modifies this`fat, dev, cache
      ensures SameOutsideFat(geo, old(dev.sectors), dev.sectors)
      ensures dev.ops == old(dev.ops) + if old(Misses(cluster)) then (if old(EvictsDirty()) then 2 else 1) else 0
      ensures !old(WriteBackFails(cluster)) ==> Valid() && fat == old(fat)
      ensures old(WriteBackFails(cluster)) ==> dev.sectors == old(dev.sectors)
      ensures old(WriteBackFails(cluster) && !LoadFails(cluster)) ==>
                Valid() && forall v: nat {:trigger IsVictim(old(cache[..]), v)} :: IsVictim(old(cache[..]), v) ==>
                  var sector := old(cache[..])[v].sector;
                  fat == Reverted(old(fat), sector - geo.fatStart, old(dev.sectors)[sector])
      ensures old(WriteBackFails(cluster) && LoadFails(cluster)) ==>
                && fat == old(fat)
                && forall v: nat {:trigger IsVictim(old(cache[..]), v)} :: IsVictim(old(cache[..]), v) ==>
                     Forgotten(old(cache[..]), v)
      ensures old(Misses(cluster) && !LoadFails(cluster)) ==>
                forall v: nat {:trigger IsVictim(old(cache[..]), v)} :: IsVictim(old(cache[..]), v) ==>
                  var sector := SectorOf(geo, cluster);
                  && sector < |dev.sectors|
                  && cache[..] == old(cache[..])[v := Slot(sector, false, true, dev.sectors[sector])]
      ensures !old(Misses(cluster)) ==> cache[..] == old(cache[..]) && dev.sectors == old(dev.sectors)
      ensures old(LoadFails(cluster)) ==> entry == CLUSTER_BAD
      ensures !old(LoadFails(cluster)) ==> entry == Low28(fat[cluster])
    {
      hide SlotsEncode, DiskEncodes, Reverted, SlotsWellFormed, Forgotten;
      var sector := SectorOf(geo, cluster);
      var hit, slot := Locate(sector);
      if !hit {
        VictimUnique(cache[..], slot);
        var ok := LoadForRead(sector, slot);
        if !ok {
          return CLUSTER_BAD;
        }
      }
      SlotWord(cache[..], geo, fat, slot, cluster);
      entry := Low28(EntryIn(cache[slot].data, cluster % 128));
    }

    /** The miss path of a write: here a refused write-back stops the operation. */
    method LoadForWrite(sector: nat, slot: nat) returns (ok: bool)
      requires Valid() && geo.fatStart <= sector < geo.fatStart + geo.fatSectors
      requires slot < cache.Length && !Holds(cache[..], sector)
      modifies dev, cache
      ensures Valid() && SameOutsideFat(geo, old(dev.sectors), dev.sectors)
      ensures ok == (!(old(cache[slot].dirty) && dev.fails(old(dev.ops)))
                     && !dev.fails(old(dev.ops) + if old(cache[slot].dirty) then 1 else 0))
      ensures dev.ops == old(dev.ops) + if old(cache[slot].dirty) && !dev.fails(old(dev.ops)) then 2 else 1
      ensures !old(cache[slot].dirty) ==> dev.sectors == old(dev.sectors)
      ensures ok ==>
                && sector < |dev.sectors|
                && cache[..] == old(cache[..])[slot := Slot(sector, false, true, dev.sectors[sector])]
    {
      hide SlotsEncode, DiskEncodes, SlotsWellFormed, Holds;
      ghost var slots0, sectors0 := cache[..], dev.sectors;
      var victim := cache[slot];
      EncodesBack(slot);
      if victim.dirty {
        var written := dev.WriteSectors(victim.sector, victim.data);
        if !written {
          return false;
        }
        OverlayOne(sectors0, victim.sector, victim.data);
        EvictedKeeps(slots0, geo, sectors0, fat, slot);
        cache[slot] := victim.(dirty := false);
        assert cache[..] == slots0[slot := victim.(dirty := false)];
      }
      ghost var slots1 := cache[..];
      var bytes;
      ok, bytes := dev.ReadSectors(sector, 1);
      if ok {
        SpanOne(dev.sectors, sector);
        NotHeld(slots0, slots1, slot, sector);
        LoadedKeeps(slots1, geo, dev.sectors, fat, slot, sector);
        cache[slot] := Slot(sector, false, true, bytes);
        assert cache[..] == slots1[slot := Slot(sector, false, true, dev.sectors[sector])];
      }
    }

    /**
     `fat32_write_fat_entry`: on success one entry changes, and it keeps its top four bits; on failure
     none does. It fails when the volume is read-only or the device refuses the write-back or the load.
     */
    method WriteEntry(cluster: nat, value: nat) returns (r: int)
      requires Valid() && cluster < |fat|
      modifies this`fat, dev, cache
      ensures Valid() && SameOutsideFat(geo, old(dev.sectors), dev.sectors)
      ensures readonly ==> r == ERR_ROFS && dev.ops == old(dev.ops)
      ensures !readonly ==> r == if old(WriteBackFails(cluster) || LoadFails(cluster)) then ERR_IO else 0
      ensures !readonly ==>
                dev.ops == old(dev.ops) + (if !old(Misses(cluster)) then 0
                                           else if old(EvictsDirty() && !WriteBackFails(cluster)) then 2 else 1)
      ensures fat == if r == 0 then old(fat)[cluster := MergeEntry(old(fat)[cluster], value)] else old(fat)
      ensures r == 0 && old(Misses(cluster)) ==>
                forall v: nat {:trigger IsVictim(old(cache[..]), v)} :: IsVictim(old(cache[..]), v) ==>
                  && v < cache.Length && cache[..] == old(cache[..])[v := cache[v]]
                  && cache[v].valid && cache[v].dirty && cache[v].sector == SectorOf(geo, cluster)
                  && (!old(cache[..])[v].dirty ==> dev.sectors == old(dev.sectors))
    {
      hide SlotsEncode, DiskEncodes, SlotsWellFormed;
      if readonly {
        return ERR_ROFS;
      }
      var sector := SectorOf(geo, cluster);
      var hit, slot := Locate(sector);
      if !hit {
        VictimUnique(cache[..], slot);
        var ok := LoadForWrite(sector, slot);
        if !ok {
          return ERR_IO;
        }
      }
      Store(slot, cluster, value);
      r := 0;
    }

    /** The in-cache update of an entry whose sector is in `slot`. */
    method Store(slot: nat, cluster: nat, value: nat)
      requires Valid() && cluster < |fat| && slot < cache.Length
      requires cache[slot].valid && cache[slot].sector == SectorOf(geo, cluster)
      modifies this`fat, cache
      ensures Valid()
      ensures fat == old(fat)[cluster := MergeEntry(old(fat)[cluster], value)]
      ensures cache[..] == old(cache[..])[slot := cache[slot]]
      ensures cache[slot].valid && cache[slot].dirty && cache[slot].sector == old(cache[slot].sector)
    {
      hide SlotsWellFormed, SlotsEncode, DiskEncodes;
      ghost var slots0, fat0 := cache[..], fat;
      var w := cluster % 128;
      var word := MergeEntry(EntryIn(cache[slot].data, w), value);
      cache[slot] := cache[slot].(data := PutWord(cache[slot].data, 4 * w, word), dirty := true);
      SlotWord(slots0, geo, fat0, slot, cluster);
      fat := fat[cluster := word];
      StoredKeeps(slots0, geo, dev.sectors, fat0, slot, cluster, word);
      assert cache[..] == slots0[slot := slots0[slot].(data := PutWord(slots0[slot].data, 4 * w, word), dirty := true)];
    }

    /** Write one dirty slot to the first FAT, and to the second if there is one. */
    method FlushSlot(i: nat) returns (ok: bool)
      requires Valid() && i < cache.Length && cache[i].dirty
      modifies dev, cache
      ensures Valid() && SameOutsideFat(geo, old(dev.sectors), dev.sectors)
      ensures ok == !dev.fails(old(dev.ops))
      ensures cache[..] == if ok then old(cache[..])[i := old(cache[i]).(dirty := false)] else old(cache[..])
      ensures dev.ops == old(dev.ops) + if ok && geo.numFats > 1 then 2 else 1
      ensures ok && geo.numFats > 1 ==>
                var second := old(cache[i].sector) + geo.fatSectors;
                && second < |dev.sectors|
                && (!dev.fails(old(dev.ops) + 1) ==> dev.sectors[second] == old(cache[i].data))
                && (forall s :: geo.fatStart + geo.fatSectors <= s < |dev.sectors| && s != second ==>
                      dev.sectors[s] == old(dev.sectors)[s])
    {
      hide SlotsEncode, DiskEncodes, SlotsWellFormed;
      EncodesBack(i);
      ghost var slots0, sectors0 := cache[..], dev.sectors;
      var slot := cache[i];
      ok := dev.WriteSectors(slot.sector, slot.data);
      if !ok {
        return;
      }
      OverlayOne(sectors0, slot.sector, slot.data);
      EvictedKeeps(slots0, geo, sectors0, fat, i);
      ghost var sectors1 := dev.sectors;
      if geo.numFats > 1 {
        var mirrored := dev.WriteSectors(slot.sector + geo.fatSectors, slot.data);
        OverlayOne(sectors1, slot.sector + geo.fatSectors, slot.data);
      }
      cache[i] := slot.(dirty := false);
      assert cache[..] == slots0[i := slot.(dirty := false)];
      DiskFrame(cache[..], geo, sectors1, dev.sectors, fat);
    }

    /** The number of the device operation that writes slot `i` to the first FAT during a flush. */
    ghost function FlushOp(slots: seq<Slot>, first: nat, i: nat): nat
      requires i <= |slots|
    {
      first + (if geo.numFats > 1 then 2 else 1) * DirtyBefore(slots, i)
    }

    /** The device refuses the first-FAT write of a dirty slot. */
    ghost predicate FlushRefused(slots: seq<Slot>, first: nat)
    {
      exists i :: 0 <= i < |slots| && slots[i].dirty && dev.fails(FlushOp(slots, first, i))
    }

    /** Slot `i` is in the second FAT too, unless the device refused that. */
    ghost predicate Mirrored(sectors: seq<Sector>, slots: seq<Slot>, first: nat, i: nat)
    {
      && i < |slots|
      && var second := slots[i].sector + geo.fatSectors;
         !dev.fails(FlushOp(slots, first, i) + 1) ==> second < |sectors| && sectors[second] == slots[i].data
    }

    lemma FlushOpNext(slots: seq<Slot>, first: nat, i: nat)
      requires i < |slots|
      ensures FlushOp(slots, first, 0) == first <= FlushOp(slots, first, i)
      ensures FlushOp(slots, first, i + 1) ==
              FlushOp(slots, first, i) + if !slots[i].dirty then 0 else if geo.numFats > 1 then 2 else 1
    {
    }

    /** The mirror write of one slot leaves the mirrors of the others. */
    lemma MirrorKept(sectors: seq<Sector>, sectors': seq<Sector>, slots: seq<Slot>, first: nat, i: nat)
      requires SlotsWellFormed(slots, geo) && i < |slots| && slots[i].dirty && |sectors'| == |sectors|
      requires forall s :: geo.fatStart + geo.fatSectors <= s < |sectors| && s != slots[i].sector + geo.fatSectors ==>
                sectors'[s] == sectors[s]
      ensures forall j :: 0 <= j < i && slots[j].dirty && Mirrored(sectors, slots, first, j) ==>
                Mirrored(sectors', slots, first, j)
    {
      hide FlushOp;
    }

    /**
     `fat32_flush_fat_cache`: it fails exactly when the device refuses the first-FAT write of a dirty slot. When
     it succeeds nothing is dirty any more, the first FAT on the device is the table the clients see, and the
     sectors that were dirty are in the second FAT; when it does not, the table is still intact.
     */
    method Flush() returns (r: int)
      requires Valid()
      modifies dev, cache
      ensures Valid() && SameOutsideFat(geo, old(dev.sectors), dev.sectors)
      ensures readonly ==> r == 0 && dev.sectors == old(dev.sectors) && dev.ops == old(dev.ops)
      ensures !readonly ==> r == if FlushRefused(old(cache[..]), old(dev.ops)) then ERR_IO else 0
      ensures dev.ops >= old(dev.ops) && (r != 0 ==> Refuses(old(dev.ops), dev.ops))
      ensures r == 0 && !readonly ==> OnDisk(geo, dev.sectors) == fat
      ensures r == 0 && !readonly && geo.numFats > 1 ==>
                forall i :: 0 <= i < 16 && old(cache[..])[i].dirty ==>
                    Mirrored(dev.sectors, old(cache[..]), old(dev.ops), i)
    {
      hide SlotsEncode, DiskEncodes, OnDisk, FlushOp, Mirrored, SlotsWellFormed;
      if readonly {
        return 0;
      }
      ghost var slots := cache[..];
      var i := 0;
      FlushOpNext(slots, dev.ops, 0);
      while i < 16
        invariant 0 <= i <= 16 && Valid() && dev.ops == FlushOp(slots, old(dev.ops), i) >= old(dev.ops)
        invariant SameOutsideFat(geo, old(dev.sectors), dev.sectors)
        invariant forall j :: 0 <= j < i ==> !cache[j].dirty
        invariant forall j :: i <= j < 16 ==> cache[j] == slots[j]
        invariant forall j :: 0 <= j < i && slots[j].dirty ==> !dev.fails(FlushOp(slots, old(dev.ops), j))
        invariant geo.numFats > 1 ==> forall j :: 0 <= j < i && slots[j].dirty ==>
                  Mirrored(dev.sectors, slots, old(dev.ops), j)
      {
        FlushOpNext(slots, old(dev.ops), i);
        if cache[i].valid && cache[i].dirty {
          var ok := FlushOne(i, slots, old(dev.ops));
          if !ok {
            return ERR_IO;
          }
        } else {
          CleanSlot(i);
        }
        i := i + 1;
      }
      NoDirtyMeansOnDisk(cache[..], geo, dev.sectors, fat);
      r := 0;
    }

    lemma CleanSlot(i: nat)
      requires SlotsWellFormed(cache[..], geo) && i < cache.Length && !(cache[i].valid && cache[i].dirty)
      ensures !cache[i].dirty
    {
      assert cache[..][i] == cache[i];
    }

    /** One step of a flush that began with `slots` and device operation `first`. */
    method FlushOne(i: nat, ghost slots: seq<Slot>, ghost first: nat) returns (ok: bool)
      requires Valid() && i < cache.Length && cache[i].dirty && SlotsWellFormed(slots, geo) && |slots| == 16
      requires cache[i] == slots[i]
      requires dev.ops == FlushOp(slots, first, i)
      modifies dev, cache
      ensures Valid() && SameOutsideFat(geo, old(dev.sectors), dev.sectors)
      ensures ok == !dev.fails(old(dev.ops))
      ensures cache[..] == if ok then old(cache[..])[i := old(cache[i]).(dirty := false)] else old(cache[..])
      ensures dev.ops == old(dev.ops) + if ok && geo.numFats > 1 then 2 else 1
      ensures ok && geo.numFats > 1 ==> Mirrored(dev.sectors, slots, first, i)
      ensures ok && geo.numFats > 1 ==>
                forall j :: 0 <= j < i && slots[j].dirty && Mirrored(old(dev.sectors), slots, first, j) ==>
                  Mirrored(dev.sectors, slots, first, j)
    {
      hide SlotsEncode, DiskEncodes, FlushOp, SlotsWellFormed;
      ok := FlushSlot(i);
      if ok && geo.numFats > 1 {
        MirrorKept(old(dev.sectors), dev.sectors, slots, first, i);
      }
    }

    /** The device would refuse both the write-back and the load of a read of this entry. */
    ghost predicate BothRefused(cluster: nat)
      reads this, dev, cache
    {
      WriteBackFails(cluster) && LoadFails(cluster)
    }

    lemma RefusesSome(cluster: nat)
      requires BothRefused(cluster)
      ensures dev.fails(dev.ops) && dev.fails(dev.ops + 1) && !dev.Reliable()
    {
    }

    method WouldRefuseBoth(cluster: nat) returns (refused: bool)
      requires Valid()
      ensures refused == BothRefused(cluster)
    {
      hide SlotsEncode, DiskEncodes, SlotsWellFormed;
      var hit, slot := Locate(SectorOf(geo, cluster));
      if !hit {
        VictimUnique(cache[..], slot);
      }
      refused := !hit && cache[slot].dirty && dev.fails(dev.ops) && dev.fails(dev.ops + 1);
    }

    /** A read, and what it loses if its write-back is refused. */
    method Load(cluster: nat) returns (entry: nat, ghost loss: Loss)
      requires Valid() && cluster < |fat| && !BothRefused(cluster)
      modifies this`fat, dev, cache
      ensures Valid() && SameOutsideFat(geo, old(dev.sectors), dev.sectors)
      ensures fat == AfterLoss(old(fat), loss) && dev.ops >= old(dev.ops)
      ensures entry == if dev.ops > old(dev.ops) && dev.fails(dev.ops - 1) then CLUSTER_BAD else Low28(fat[cluster])
      ensures loss.Lost? <==> dev.ops == old(dev.ops) + 2 && dev.fails(old(dev.ops))
      ensures loss.Lost? ==> FromDevice(loss, old(dev.sectors)) && (loss.k + 1) * 128 <= |fat|
    {
      hide SlotsEncode, DiskEncodes, SlotsWellFormed, Reverted, Forgotten, IsVictim, Misses, SameOutsideFat,
        EvictsDirty;
      ghost var slots0, sectors0, lost := cache[..], dev.sectors, WriteBackFails(cluster);
      loss := Nothing;
      if lost {
        ghost var v := DirtyVictim();
        EncodesBack(v);
        loss := Lost(slots0[v].sector - geo.fatStart, sectors0[slots0[v].sector]);
      }
      entry := ReadEntry(cluster);
    }

    lemma DirtyVictim() returns (v: nat)
      requires EvictsDirty()
      ensures v < cache.Length && IsVictim(cache[..], v) && cache[..][v].dirty
    {
      v :| IsVictim(cache[..], v) && cache[..][v].dirty;
    }

    /** What was lost is what the device holds. */
    ghost predicate FromDevice(loss: Loss, sectors: seq<Sector>)
    {
      loss.Lost? && geo.fatStart + loss.k < |sectors| && loss.sector == sectors[geo.fatStart + loss.k]
    }

    method Step(op: FatOp) returns (out: int, ghost loss: Loss)
      requires Valid() && InTable(op, |fat|) && (op.Load? ==> !BothRefused(op.cluster))
      modifies this`fat, dev, cache
      ensures Valid() && SameOutsideFat(geo, old(dev.sectors), dev.sectors)
      ensures dev.ops >= old(dev.ops) && fat == AfterOp(old(fat), Done(op, out, loss, old(dev.ops), dev.ops))
      ensures op.Load? ==>
                out == if dev.ops > old(dev.ops) && dev.fails(dev.ops - 1) then CLUSTER_BAD else Low28(fat[op.cluster])
      ensures op.Put? ==> out == if readonly then ERR_ROFS else if Refuses(old(dev.ops), dev.ops) then ERR_IO else 0
      ensures op.Sync? ==> out == 0 || (out == ERR_IO && Refuses(old(dev.ops), dev.ops))
      ensures op.Sync? && out == 0 && !readonly ==> OnDisk(geo, dev.sectors) == fat
      ensures loss.Lost? <==> op.Load? && dev.ops == old(dev.ops) + 2 && dev.fails(old(dev.ops))
      ensures loss.Lost? ==> FromDevice(loss, old(dev.sectors))
    {
      hide SlotsWellFormed, SlotsEncode, DiskEncodes, OnDisk, Reverted, BothRefused;
      loss := Nothing;
      match op {
        case Load(c) => out, loss := Load(c);
        case Put(c, v) => out := WriteEntry(c, v);
        case Sync => out := Flush();
      }
    }

    /**
     The cache over every sequence of entry reads, entry writes and flushes, on any device, up to the first read
     with both its write-back and its load refused. `log` says what each operation did: a read returns the value
     its entry has by the history of successful writes and losses, unless its load is refused; a write that fails
     changes nothing; and only a read whose write-back is refused loses anything. `disks[i]` is the device before
     operation `i`.
     */
    method Run(ops: seq<FatOp>) returns (outs: seq<int>, ghost log: seq<Done>, ghost disks: seq<seq<Sector>>)
      requires Valid() && forall i :: 0 <= i < |ops| ==> InTable(ops[i], |fat|)
      modifies this`fat, dev, cache
      ensures Valid() && SameOutsideFat(geo, old(dev.sectors), dev.sectors)
      ensures |log| == |outs| <= |ops| && |disks| == |log| + 1
      ensures disks[0] == old(dev.sectors) && disks[|log|] == dev.sectors
      ensures dev.ops == if log == [] then old(dev.ops) else log[|log| - 1].next
      ensures AllInTable(log, |old(fat)|) && fat == AfterOps(old(fat), log)
      ensures forall i :: 0 <= i < |outs| ==> log[i].op == ops[i] && log[i].out == outs[i]
      ensures forall i :: 0 <= i < |outs| ==> Answered(old(fat), readonly, old(dev.ops), log, disks, i)
      ensures |outs| < |ops| ==> ops[|outs|].Load? && BothRefused(ops[|outs|].cluster)
      ensures dev.Reliable() ==> |outs| == |ops|
      ensures |outs| > 0 && ops[|outs| - 1].Sync? && outs[|outs| - 1] == 0 && !readonly ==>
                OnDisk(geo, dev.sectors) == fat
    {
      hide SlotsWellFormed, SlotsEncode, DiskEncodes, OnDisk, SameOutsideFat, AfterOp, AfterOps, LastValue, Refuses,
        Answered, FromDevice, BothRefused, AllInTable;
      outs, log, disks := [], [], [dev.sectors];
      AfterNone(fat);
      SameOutsideFatRefl(geo, dev.sectors);
      while |outs| < |ops|
        invariant |log| == |outs| <= |ops| && |disks| == |log| + 1
        invariant disks[0] == old(dev.sectors) && disks[|log|] == dev.sectors
        invariant Valid() && SameOutsideFat(geo, old(dev.sectors), dev.sectors)
        invariant dev.ops == if log == [] then old(dev.ops) else log[|log| - 1].next
        invariant |fat| == |old(fat)| && AllInTable(log, |old(fat)|) && fat == AfterOps(old(fat), log)
        invariant forall i :: 0 <= i < |outs| ==> log[i].op == ops[i] && log[i].out == outs[i]
        invariant forall i :: 0 <= i < |outs| ==> Answered(old(fat), readonly, old(dev.ops), log, disks, i)
        invariant |outs| > 0 && ops[|outs| - 1].Sync? && outs[|outs| - 1] == 0 && !readonly ==>
                    OnDisk(geo, dev.sectors) == fat
        decreases |ops| - |outs|
      {
        var i := |outs|;
        if ops[i].Load? {
          var refused := WouldRefuseBoth(ops[i].cluster);
          if refused {
            RefusesSome(ops[i].cluster);
            return;
          }
        }
        ghost var sectors0, first := dev.sectors, dev.ops;
        var out;
        ghost var loss;
        out, loss := Step(ops[i]);
        SameOutsideFatTrans(geo, old(dev.sectors), sectors0, dev.sectors);
        ghost var d := Done(ops[i], out, loss, first, dev.ops);
        OneMoreInTable(log, |old(fat)|, d);
        AfterOpsStep(old(fat), log, d);
        if ops[i].Load? {
          LastValueIs(old(fat), log + [d], ops[i].cluster);
        }
        AnsweredNext(old(fat), readonly, old(dev.ops), log, disks, d, dev.sectors);
        outs, log, disks := outs + [out], log + [d], disks + [dev.sectors];
      }
    }

    /** What operation `d` returned and lost, when `value` is the value a read of its entry should see. */
    ghost predicate Explained(readonly: bool, d: Done, disk: seq<Sector>, value: nat)
    {
      && d.first <= d.next
      && (d.loss.Lost? <==> d.op.Load? && d.next == d.first + 2 && dev.fails(d.first))
      && (d.loss.Lost? ==> FromDevice(d.loss, disk))
      && match d.op
         case Load(_) => d.out == if d.next > d.first && dev.fails(d.next - 1) then CLUSTER_BAD else value
         case Put(_, _) => d.out == if readonly then ERR_ROFS else if Refuses(d.first, d.next) then ERR_IO else 0
         case Sync => d.out == 0 || (d.out == ERR_IO && Refuses(d.first, d.next))
    }

    /**
     Operation `i` of a run that began with table `fat0` and device operation `n`. A read fails exactly when its
     load, the last device operation it made, is refused, and loses a sector exactly when it made two and the
     first was refused. A write fails exactly when any is refused.
     */
    ghost predicate Answered(fat0: seq<nat>, readonly: bool, n: nat, log: seq<Done>, disks: seq<seq<Sector>>, i: nat)
    {
      && i < |log| < |disks| && log[i].first == (if i == 0 then n else log[i - 1].next)
      && (log[i].op.Load? ==> log[i].op.cluster < |fat0|)
      && Explained(readonly, log[i], disks[i],
           if log[i].op.Load? then LastValue(fat0, log[..i + 1], log[i].op.cluster) else 0)
    }

    lemma AnsweredNext(fat0: seq<nat>, readonly: bool, n: nat, log: seq<Done>, disks: seq<seq<Sector>>, d: Done,
        disk: seq<Sector>)
      requires |disks| == |log| + 1 && d.first == (if log == [] then n else log[|log| - 1].next)
      requires forall i :: 0 <= i < |log| ==> Answered(fat0, readonly, n, log, disks, i)
      requires d.op.Load? ==> d.op.cluster < |fat0|
      requires Explained(readonly, d, disks[|log|], if d.op.Load? then LastValue(fat0, log + [d], d.op.cluster) else 0)
      ensures forall i :: 0 <= i <= |log| ==> Answered(fat0, readonly, n, log + [d], disks + [disk], i)
    {
      hide LastValue, Explained;
      var log', disks' := log + [d], disks + [disk];
      assert log'[..|log| + 1] == log';
      forall i | 0 <= i < |log| ensures Answered(fat0, readonly, n, log', disks', i) {
        assert Answered(fat0, readonly, n, log, disks, i);
        assert log'[..i + 1] == log[..i + 1] && log'[i] == log[i] && disks'[i] == disks[i];
        assert i > 0 ==> log'[i - 1] == log[i - 1];
      }
    }
  }

  lemma OneMoreInTable(log: seq<Done>, n: nat, d: Done)
    requires AllInTable(log, n) && InTable(d.op, n)
    ensures AllInTable(log + [d], n)
  {
  }

  lemma AfterNone(fat: seq<nat>)
    ensures AllInTable([], |fat|)
    ensures AfterOps(fat, []) == fat
  {
  }

  lemma BlankEntry(w: nat)
    requires w < 128
    ensures EntryIn(seq(512, _ => 0), w) == 0
  {
  }

  lemma BlankFat(geo: Geometry, sectors: seq<Sector>, c: nat)
    requires geo.fatStart + geo.fatSectors <= |sectors| && c < geo.fatSectors * 128
    requires forall i :: 0 <= i < |sectors| ==> sectors[i] == seq(512, _ => 0)
    ensures OnDisk(geo, sectors)[c] == 0
  {
    BlankEntry(c % 128);
  }

  /** A device with room for a FAT of seventeen empty sectors that refuses its seventeenth operation. */
  method ForgetfulTable() returns (t: FatTable)
    ensures fresh(t) && fresh(t.dev) && fresh(t.cache) && t.Valid() && !t.readonly && t.cache.Length == 16
    ensures t.geo == Geometry(1, 17, 1, 18, 1, 2174)
    ensures |t.fat| == 2176 && forall c :: 0 <= c < 2176 ==> t.fat[c] == 0
    ensures t.dev.ops == 0 && forall n :: t.dev.fails(n) <==> n == 16
    ensures |t.dev.sectors| == 20 && forall i :: 0 <= i < 20 ==> t.dev.sectors[i] == seq(512, _ => 0)
    ensures forall i :: 0 <= i < 16 ==> !t.cache[i].valid
  {
    hide FatTable.Valid, OnDisk, EntryIn;
    var blank: Sector := seq(512, _ => 0);
    var dev := new Device(seq(20, _ => blank), n => n == 16);
    var geo := Geometry(1, 17, 1, 18, 1, 2174);
    t := new FatTable(dev, geo);
    forall c | 0 <= c < 2176 ensures t.fat[c] == 0 { BlankFat(geo, dev.sectors, c); }
  }

  /** The cache after the first `i` writes of the instance below: slots 15, 14, ... hold sectors 1, 2, ... */
  ghost predicate Filled(t: FatTable, i: nat)
    reads t, t.dev, t.cache
  {
    && i <= 16 && t.Valid() && |t.fat| == 2176 && !t.readonly && t.cache.Length == 16
    && t.geo == Geometry(1, 17, 1, 18, 1, 2174) && t.dev.ops == i
    && |t.dev.sectors| == 20 && (forall k :: 0 <= k < 20 ==> t.dev.sectors[k] == seq(512, _ => 0))
    && (forall s :: 0 <= s < 16 - i ==> !t.cache[..][s].valid && !t.cache[..][s].dirty)
    && (forall s :: 16 - i <= s < 16 ==>
        t.cache[..][s].valid && t.cache[..][s].dirty && t.cache[..][s].sector == 16 - s)
    && (forall k :: i <= k < 17 ==> t.fat[128 * k] == 0)
    && (i > 0 ==> t.fat[128 * (i - 1)] == 5)
  }

  method FillNext(t: FatTable, i: nat) returns (r: int)
    requires Filled(t, i) && i < 16 && forall n :: t.dev.fails(n) <==> n == 16
    modifies t`fat, t.dev, t.cache
    ensures Filled(t, i + 1) && r == 0
  {
    hide FatTable.Valid;
    assert FatTable.IsVictim(t.cache[..], 15 - i);
    r := t.WriteEntry(128 * i, 5);
  }

  /**
   An instance of a lost write: sixteen entries in sixteen sectors are written, each write returns 0, and the last
   of them reads as 5. A read of an entry in a seventeenth sector, with its write-back refused, returns
   that entry, and from then on the last entry written reads as 0 again.
   */
  method LostWrite() returns (codes: seq<int>, before: nat, other: nat, after: nat)
    ensures codes == seq(16, _ => 0) && before == 5 && other == 0 && after == 0
  {
    hide FatTable.Valid, Reverted, Filled;
    var t := ForgetfulTable();
    codes := [];
    EmptyFilled(t);
    var i := 0;
    while i < 16
      invariant 0 <= i <= 16 && Filled(t, i) && codes == seq(i, _ => 0)
    {
      var r := FillNext(t, i);
      codes := codes + [r];
      i := i + 1;
    }
    before, other, after := ReadThrice(t);
  }

  method ReadThrice(t: FatTable) returns (before: nat, other: nat, after: nat)
    requires Filled(t, 16) && forall n :: t.dev.fails(n) <==> n == 16
    modifies t`fat, t.dev, t.cache
    ensures before == 5 && other == 0 && after == 0
  {
    hide FatTable.Valid, Reverted;
    assert t.cache[..][0].sector == 16;
    before := t.ReadEntry(128 * 15);
    assert FatTable.IsVictim(t.cache[..], 0);
    other := t.ReadEntry(128 * 16);
    BlankEntry(0);
    assert Encodes(seq(512, _ => 0), t.fat, 15);
    assert t.fat[128 * 15 + 0] == 0;
    after := t.ReadEntry(128 * 15);
  }

  lemma EmptyFilled(t: FatTable)
    requires t.Valid() && (forall i :: 0 <= i < 16 ==> !t.cache[i].valid) && t.geo == Geometry(1, 17, 1, 18, 1, 2174)
    requires !t.readonly && t.dev.ops == 0 && |t.fat| == 2176 && forall c :: 0 <= c < 2176 ==> t.fat[c] == 0
    requires |t.dev.sectors| == 20 && forall i :: 0 <= i < 20 ==> t.dev.sectors[i] == seq(512, _ => 0)
    ensures Filled(t, 0)
  {
    assert forall i :: 0 <= i < 16 ==> t.cache[..][i] == t.cache[i];
  }
}
