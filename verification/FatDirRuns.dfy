/**
 Runs of lookups, creations and deletions of plain files in one directory of a volume: the directory behaves as a
 map from upper-case names to records, whatever clusters it grows by and whatever files it loses.
 */
module FatDirRuns {
  import opened Bytes
  import opened FatTables
  import opened FatChains
  import opened FatFiles
  import opened FatVolume
  import opened ShortNames
  import opened Directory
  import opened FatDirectory
  import FatRuns

  const ATTR_ARCHIVE: Byte := 0x20

  /** A lookup, an open that creates a file not found, and a deletion. */
  datatype DirCall = LookUp(name: seq<Byte>) | Open(name: seq<Byte>) | Remove(name: seq<Byte>)

  /** A record found or created, or a result code. */
  datatype Out = Rec(rec: Record) | Code(code: int)

  // ---------- the map ----------

  type Names = map<seq<Byte>, Record>

  /** What a call returns when the directory holds the names `m`; only a full volume refuses a creation. */
  ghost predicate Answers(max: nat, fat: seq<nat>, m: Names, readonly: bool, call: DirCall, out: Out)
  {
    var key := Upper(call.name);
    match call
    case LookUp(_) => out == if key in m then Rec(m[key]) else Code(ERR_NOENT)
    case Open(name) =>
      if key in m then out == Rec(m[key])
      else if readonly then out == Code(ERR_ROFS)
      else || out == Rec(NewRecord(name, ATTR_ARCHIVE))
           || (out == Code(ERR_NOSPC) && max <= |fat| && FreeCount(fat, 2, max) == 0)
    case Remove(_) => out == Code(if readonly then ERR_ROFS else if key in m then 0 else ERR_NOENT)
  }

  /** The names after a call that returned `out`. */
  function After(m: Names, call: DirCall, out: Out): Names {
    match call
    case LookUp(_) => m
    case Open(name) => if out.Rec? then m[Upper(name) := out.rec] else m
    case Remove(name) => if out == Code(0) then m - {Upper(name)} else m
  }

  // ---------- the directory ----------

  predicate Live(r: Record) {
    r[0] != DIRENT_END && Candidate(r, true)
  }

  /** The names `.` and `..`, under which a directory lists itself and its parent. */
  predicate DotName(key: seq<Byte>) {
    key == [DOT] || key == [DOT, DOT]
  }

  /** A record that stands for a file or directory of its own. */
  predicate Owner(r: Record) {
    Live(r) && !DotName(Key(Packed(r))) && FirstCluster(r) >= 2
  }

  /** `f` is the chain of the file the record stands for; empty for a record without one. */
  ghost predicate Owns(r: Record, fat: seq<nat>, max: nat, f: seq<nat>)
  {
    if Owner(r) then IsChain(fat, max, f) && f[0] == FirstCluster(r) else f == []
  }

  /** The directory `ch` with records `recs`, and the chain of each record's file: all chains are disjoint. */
  ghost predicate Sound(fat: seq<nat>, max: nat, recs: seq<Record>, ch: seq<nat>, files: seq<seq<nat>>)
  {
    && IsChain(fat, max, ch) && |files| == |recs|
    && (forall k :: 0 <= k < |recs| ==> Owns(recs[k], fat, max, files[k]) && DisjointChains(files[k], ch))
    && (forall j, k :: 0 <= j < |files| && 0 <= k < |files| && j != k ==> DisjointChains(files[j], files[k]))
  }

  /** No volume label before the end mark has this name. */
  ghost predicate NoLabel(recs: seq<Record>, name: seq<Byte>)
  {
    forall k :: 0 <= k < |recs| && Live(recs[k]) && IsVolumeLabel(recs[k]) ==> !Matches(name, recs[k])
  }

  ghost predicate WellFormed(recs: seq<Record>) {
    TailIsEnd(recs) && NoDuplicates(recs)
  }

  lemma OwnsGrown(r: Record, fat: seq<nat>, fat': seq<nat>, max: nat, ch: seq<nat>, ch': seq<nat>, f: seq<nat>)
    requires Owns(r, fat, max, f) && Grown(fat, fat', max, ch, ch') && DisjointChains(f, ch)
    ensures Owns(r, fat', max, f) && DisjointChains(f, ch')
  {
    hide IsChain, Grown;
    if Owner(r) {
      ChainNonEmpty(fat, max, f);
      GrownSpares(fat, fat', max, ch, ch', f);
    }
  }

  /** The records after a creation: the old ones, the new one, and blank ones. */
  lemma CreatedParts(recs: seq<Record>, r: Record, n: nat)
    requires n > 0
    ensures var recs' := Created(recs, r, n);
            && |recs| <= |recs'|
            && forall k :: 0 <= k < |recs'| ==>
              || (k < |recs| && recs'[k] == recs[k])
              || (recs'[k] == r && (k < |recs| ==> !Live(recs[k])))
              || (k >= |recs| && !Live(recs'[k]))
  {
    hide FirstUnused;
    var k := FirstUnused(recs, 0);
  }

  lemma SoundCreated(fat: seq<nat>, fat': seq<nat>, max: nat, recs: seq<Record>, ch: seq<nat>, ch': seq<nat>,
      files: seq<seq<nat>>, name: seq<Byte>, n: nat) returns (files': seq<seq<nat>>)
    requires Sound(fat, max, recs, ch, files) && Grown(fat, fat', max, ch, ch') && n > 0
    ensures Sound(fat', max, Created(recs, NewRecord(name, ATTR_ARCHIVE), n), ch', files')
  {
    hide IsChain, Grown, Created, NewRecord, Live, DisjointChains, Key;
    var r := NewRecord(name, ATTR_ARCHIVE);
    var recs' := Created(recs, r, n);
    CreatedParts(recs, r, n);
    files' := files + seq(|recs'| - |recs|, _ => []);
    GrownStill(fat, fat', max, ch, ch');
    forall k | 0 <= k < |recs'|
      ensures Owns(recs'[k], fat', max, files'[k]) && DisjointChains(files'[k], ch')
    {
      if k < |recs| {
        OwnsGrown(recs[k], fat, fat', max, ch, ch', files[k]);
      } else {
        NothingShared([], ch');
      }
    }
    forall j, k | 0 <= j < |files'| && 0 <= k < |files'| && j != k
      ensures DisjointChains(files'[j], files'[k])
    {
      if j >= |files| || k >= |files| {
        NothingShared(files'[j], files'[k]);
      }
    }
  }

  lemma NothingShared(a: seq<nat>, b: seq<nat>)
    requires a == [] || b == []
    ensures DisjointChains(a, b)
  {
  }

  lemma GrownStill(fat: seq<nat>, fat': seq<nat>, max: nat, ch: seq<nat>, ch': seq<nat>)
    requires IsChain(fat, max, ch) && Grown(fat, fat', max, ch, ch')
    ensures IsChain(fat', max, ch')
  {
  }

  lemma SoundErased(fat: seq<nat>, max: nat, recs: seq<Record>, ch: seq<nat>, files: seq<seq<nat>>, k: nat)
    requires Sound(fat, max, recs, ch, files) && k < |recs|
    ensures Sound(FreedAll(fat, files[k]), max, recs[k := Erased(recs[k])], ch, files[k := []])
  {
    hide IsChain, FreedAll, FirstCluster, DisjointChains, Key;
    var fat', recs', files' := FreedAll(fat, files[k]), recs[k := Erased(recs[k])], files[k := []];
    FreeSpares(fat, max, files[k], ch);
    ChainNonEmpty(fat, max, ch);
    NothingShared([], ch);
    forall j | 0 <= j < |recs| && j != k
      ensures Owns(recs'[j], fat', max, files'[j])
    {
      if Owner(recs[j]) {
        ChainNonEmpty(fat, max, files[j]);
        FreeSpares(fat, max, files[k], files[j]);
      }
    }
    forall i, j | 0 <= i < |files'| && 0 <= j < |files'| && i != j
      ensures DisjointChains(files'[i], files'[j])
    {
      if i == k || j == k {
        NothingShared(files'[i], files'[j]);
      }
    }
  }

  /** A label-free name stays so when a plain file is created or a record erased. */
  lemma NoLabelKept(recs: seq<Record>, r: Record, n: nat, k: nat, name: seq<Byte>)
    requires n > 0 && NoLabel(recs, name) && !IsVolumeLabel(r)
    ensures NoLabel(Created(recs, r, n), name)
    ensures k < |recs| ==> NoLabel(recs[k := Erased(recs[k])], name)
  {
    hide Created, Matches;
    CreatedParts(recs, r, n);
  }

  /** Without a label of that name, a deletion hits what a lookup finds. */
  lemma RemoveHits(recs: seq<Record>, name: seq<Byte>)
    requires NoLabel(recs, name)
    ensures Find(recs, name, true, 0) == Find(recs, name, false, 0)
    ensures Find(recs, name, true, 0).Some? ==>
              var k := Find(recs, name, true, 0).value;
              Live(recs[k]) && !IsVolumeLabel(recs[k])
  {
    hide Find, Matches;
    DeleteAgreesWithFind(recs, name, 0);
  }

  // ---------- on the volume ----------

  /** The directory at `parent` and the files in it are well formed and apart. */
  ghost predicate Keeps(v: Volume, parent: nat, ch: seq<nat>, files: seq<seq<nat>>)
    reads v, v.table, v.table.dev, v.table.cache, v.buffer
  {
    && v.Valid() && ch != [] && ch[0] == parent && Inside(v.data, ch)
    && WellFormed(DirRecords(v.data, ch)) && Sound(v.Fat(), v.Max(), DirRecords(v.data, ch), ch, files)
  }

  ghost function NamesIn(v: Volume, ch: seq<nat>): Names
    reads v
    requires Inside(v.data, ch)
  {
    NameMap(DirRecords(v.data, ch))
  }

  /**
   A name the call may use: a C string, for a creation one that survives packing, and for a deletion not one of the
   two names that the path normaliser strips.
   */
  predicate Usable(call: DirCall) {
    && 0 !in call.name && (call.Open? ==> Representable(call.name))
    && (call.Remove? ==> !DotName(Upper(call.name)))
  }

  /** A creation that would have to extend the directory, from a hint from which the allocator does not come back. */
  ghost predicate Stuck(v: Volume, call: DirCall, ch: seq<nat>)
    reads v, v.table
    requires Inside(v.data, ch)
  {
    var recs := DirRecords(v.data, ch);
    && call.Open? && !v.table.readonly && Upper(call.name) !in NameMap(recs) && FirstUnused(recs, 0) == |recs|
    && 2 < v.Max() <= |v.Fat()| && !SearchOk(v.Fat(), v.nextFree, v.Max())
  }

  /** Only a creation in a full directory, from a hint past the last data cluster, can be stuck. */
  lemma NotStuck(v: Volume, call: DirCall, ch: seq<nat>)
    requires Inside(v.data, ch)
    requires || !call.Open? || v.table.readonly || 2 <= v.nextFree < v.Max() || Upper(call.name) in NamesIn(v, ch)
             || exists k :: 0 <= k < |DirRecords(v.data, ch)| && Unused(DirRecords(v.data, ch)[k])
    ensures !Stuck(v, call, ch)
  {
    hide NameMap, Content;
  }

  /** The directory and its files on the volume. */
  datatype Dir = Dir(fat: seq<nat>, data: seq<seq<Byte>>, ch: seq<nat>, files: seq<seq<nat>>)

  ghost function DirOf(v: Volume, ch: seq<nat>, files: seq<seq<nat>>): Dir
    reads v, v.table
  {
    Dir(v.Fat(), v.data, ch, files)
  }

  /** No cluster outside the directory changed, and the directory has at most grown. */
  ghost predicate OthersKept(d: Dir, d': Dir)
  {
    && d.ch <= d'.ch && |d'.data| == |d.data|
    && forall c :: 2 <= c < |d.data| && c !in d'.ch ==> d'.data[c] == d.data[c]
  }

  /** What the call did to the directory, its files and the FAT. */
  ghost predicate Changes(max: nat, d: Dir, call: DirCall, out: Out, d': Dir)
    requires Inside(d.data, d.ch)
  {
    match call
    case LookUp(_) => d' == d
    case Open(name) =>
      && Grown(d.fat, d'.fat, max, d.ch, d'.ch)
      && (out.Code? || Upper(name) in NameMap(DirRecords(d.data, d.ch)) ==> d' == d)
    case Remove(_) =>
      if out != Code(0) then d' == d
      else exists k :: && 0 <= k < |d.files| && d'.ch == d.ch && d'.files == d.files[k := []]
                       && d'.fat == FreedAll(d.fat, d.files[k])
  }

  /** From `d` to `d'` the call did what it is for, and returned `out`. */
  ghost predicate Takes(max: nat, readonly: bool, d: Dir, call: DirCall, out: Out, d': Dir)
  {
    && Inside(d.data, d.ch) && Inside(d'.data, d'.ch)
    && Answers(max, d.fat, NameMap(DirRecords(d.data, d.ch)), readonly, call, out)
    && NameMap(DirRecords(d'.data, d'.ch)) == After(NameMap(DirRecords(d.data, d.ch)), call, out)
    && OthersKept(d, d') && Changes(max, d, call, out, d')
  }

  lemma KeepsFacts(v: Volume, parent: nat, ch: seq<nat>, files: seq<seq<nat>>)
    requires Keeps(v, parent, ch, files)
    ensures IsChain(v.Fat(), v.Max(), ch) && v.At(ch, 0, parent) && 2 < v.Max() <= |v.Fat()| && v.Max() <= CLUSTER_BAD
  {
    ChainNonEmpty(v.Fat(), v.Max(), ch);
  }

  /** `fat32_find_entry_in_dir`, as a lookup in the map. */
  method Look(v: Volume, parent: nat, name: seq<Byte>, ghost ch: seq<nat>, ghost files: seq<seq<nat>>)
    returns (out: Out)
    requires Keeps(v, parent, ch, files) && v.table.dev.Reliable() && 0 !in name
    modifies v.buffer, v.table`fat, v.table.dev, v.table.cache
    ensures Keeps(v, parent, ch, files) && v.Fat() == old(v.Fat())
    ensures Answers(v.Max(), v.Fat(), NamesIn(v, ch), v.table.readonly, LookUp(name), out)
  {
    hide Volume.Valid, IsChain, Content, NameMap, WellFormed, Sound;
    KeepsFacts(v, parent, ch, files);
    var r, rec, index := FindEntry(v, parent, name, ch);
    out := if r == 0 then Rec(rec) else Code(r);
  }

  /** `vfs_open` with creation, inside one directory: look, and create what is not there. */
  method Create(v: Volume, parent: nat, name: seq<Byte>, ghost ch: seq<nat>, ghost files: seq<seq<nat>>)
    returns (out: Out, ghost ch': seq<nat>, ghost files': seq<seq<nat>>)
    requires Keeps(v, parent, ch, files) && v.table.dev.Reliable() && Usable(Open(name)) && !Stuck(v, Open(name), ch)
    modifies v, v.buffer, v.table`fat, v.table.dev, v.table.cache
    ensures Keeps(v, parent, ch', files')
    ensures Takes(v.Max(), v.table.readonly, old(DirOf(v, ch, files)), Open(name), out, DirOf(v, ch', files'))
    ensures forall other :: old(NoLabel(DirRecords(v.data, ch), other)) ==> NoLabel(DirRecords(v.data, ch'), other)
  {
    hide Volume.Valid, IsChain, Content, NameMap, WellFormed, Sound, Created, NewRecord, FirstUnused, Find, Grown, Room,
      NoLabel, SearchOk, FreeCount, Takes, OnlyDirChanged, Upper;
    ch', files' := ch, files;
    ghost var recs, fat0, d := DirRecords(v.data, ch), v.Fat(), DirOf(v, ch, files);
    KeepsFacts(v, parent, ch, files);
    out := Look(v, parent, name, ch, files);
    if out.Rec? {
      OpenTakesNothing(v.Max(), v.table.readonly, d, name, out);
      return;
    }
    RoomOne(v.Fat(), v.nextFree, v.Max());
    FindIsMapLookup(recs, name);
    var r, rec;
    r, rec, ch' := CreateEntry(v, parent, name, ATTR_ARCHIVE, ch);
    if r != 0 {
      out := Code(r);
      OpenTakesNothing(v.Max(), v.table.readonly, d, name, out);
      return;
    }
    out := Rec(rec);
    CreatedKeeps(recs, name, v.Size() / 32);
    OnlyDirFacts(fat0, d.data, v.Fat(), v.data, v.Max(), ch, ch');
    files' := SoundCreated(fat0, v.Fat(), v.Max(), recs, ch, ch', files, name, v.Size() / 32);
    OpenTakes(v.Max(), v.table.readonly, d, name, DirOf(v, ch', files'));
    GrownFirstCluster(fat0, v.Fat(), v.Max(), ch, ch');
    forall other | NoLabel(recs, other) ensures NoLabel(DirRecords(v.data, ch'), other) {
      PlainRecord(name);
      NoLabelKept(recs, rec, v.Size() / 32, 0, other);
    }
  }

  lemma OnlyDirFacts(fat: seq<nat>, data: seq<seq<Byte>>, fat': seq<nat>, data': seq<seq<Byte>>, max: nat,
      ch: seq<nat>, ch': seq<nat>)
    requires OnlyDirChanged(fat, data, fat', data', max, ch, ch')
    ensures Grown(fat, fat', max, ch, ch')
  {
  }

  /** An open that finds its file, or creates none, changes nothing. */
  lemma OpenTakesNothing(max: nat, readonly: bool, d: Dir, name: seq<Byte>, out: Out)
    requires IsChain(d.fat, max, d.ch) && Inside(d.data, d.ch)
    requires Answers(max, d.fat, NameMap(DirRecords(d.data, d.ch)), readonly, Open(name), out)
    requires Upper(name) in NameMap(DirRecords(d.data, d.ch)) || out.Code?
    ensures Takes(max, readonly, d, Open(name), out, d)
  {
    hide IsChain, NameMap, Upper, NewRecord, Content;
    GrownRefl(d.fat, max, d.ch);
  }

  /** An open that creates its file. */
  lemma OpenTakes(max: nat, readonly: bool, d: Dir, name: seq<Byte>, d': Dir)
    requires Inside(d.data, d.ch) && Inside(d'.data, d'.ch) && !readonly
    requires Upper(name) !in NameMap(DirRecords(d.data, d.ch))
    requires NameMap(DirRecords(d'.data, d'.ch)) ==
             NameMap(DirRecords(d.data, d.ch))[Upper(name) := NewRecord(name, ATTR_ARCHIVE)]
    requires OnlyDirChanged(d.fat, d.data, d'.fat, d'.data, max, d.ch, d'.ch)
    ensures Takes(max, readonly, d, Open(name), Rec(NewRecord(name, ATTR_ARCHIVE)), d')
  {
    hide IsChain, NameMap, Upper, NewRecord, Content;
  }

  lemma PlainRecord(name: seq<Byte>)
    ensures !IsVolumeLabel(NewRecord(name, ATTR_ARCHIVE))
  {
    hide NewRecord, Encode;
  }

  lemma GrownFirstCluster(fat: seq<nat>, fat': seq<nat>, max: nat, ch: seq<nat>, ch': seq<nat>)
    requires Grown(fat, fat', max, ch, ch') && ch != []
    ensures ch' != [] && ch'[0] == ch[0] && ch <= ch'
  {
  }

  lemma CreatedKeeps(recs: seq<Record>, name: seq<Byte>, n: nat)
    requires n > 0 && WellFormed(recs) && Representable(name) && Find(recs, name, false, 0) == None
    ensures var recs' := Created(recs, NewRecord(name, ATTR_ARCHIVE), n);
            WellFormed(recs') && NameMap(recs') == NameMap(recs)[Upper(name) := NewRecord(name, ATTR_ARCHIVE)]
  {
    hide Created, NewRecord, NameMap, NoDuplicates, TailIsEnd, Find, Representable;
    CreateThenFind(recs, name, ATTR_ARCHIVE, n);
  }

  /** `fat32_delete_entry`, as a removal from the map. */
  method Delete(v: Volume, parent: nat, name: seq<Byte>, ghost ch: seq<nat>, ghost files: seq<seq<nat>>)
    returns (out: Out, ghost files': seq<seq<nat>>)
    requires Keeps(v, parent, ch, files) && v.table.dev.Reliable() && Usable(Remove(name))
    requires NoLabel(DirRecords(v.data, ch), name)
    modifies v, v.buffer, v.table`fat, v.table.dev, v.table.cache
    ensures Keeps(v, parent, ch, files')
    ensures Takes(v.Max(), v.table.readonly, old(DirOf(v, ch, files)), Remove(name), out, DirOf(v, ch, files'))
    ensures forall other :: old(NoLabel(DirRecords(v.data, ch), other)) ==> NoLabel(DirRecords(v.data, ch), other)
  {
    hide Volume.Valid, IsChain, Content, NameMap, WellFormed, Find, FreedAll, NoLabel, DisjointChains, FirstCluster,
      Erased, Sound, Dropped, Key, Upper;
    files' := files;
    ghost var recs, fat0 := DirRecords(v.data, ch), v.Fat();
    KeepsFacts(v, parent, ch, files);
    FindIsMapLookup(recs, name);
    RemoveHits(recs, name);
    ghost var hit := Find(recs, name, true, 0);
    if hit.Some? {
      assert Hit(name, true, recs[hit.value]);
      OwnsFile(fat0, v.Max(), recs, ch, files, hit.value);
    }
    var r;
    ghost var slot;
    r, slot := DeleteEntry(v, parent, name, ch);
    out := Code(r);
    if r == 0 {
      files' := files[slot := []];
      SoundErased(fat0, v.Max(), recs, ch, files, slot);
      ErasedKeeps(recs, name);
      forall other | NoLabel(recs, other) ensures NoLabel(DirRecords(v.data, ch), other) {
        PlainRecord(name);
        NoLabelKept(recs, NewRecord(name, ATTR_ARCHIVE), 1, slot, other);
      }
    }
  }

  lemma OwnsFile(fat: seq<nat>, max: nat, recs: seq<Record>, ch: seq<nat>, files: seq<seq<nat>>, k: nat)
    requires Sound(fat, max, recs, ch, files) && k < |recs| && Live(recs[k]) && !DotName(Key(Packed(recs[k])))
    requires 2 < max <= |fat| && max <= CLUSTER_BAD
    ensures |files| == |recs| && FirstCluster(recs[k]) < 0x1000_0000 && DisjointChains(files[k], ch)
    ensures Dropped(fat, max, recs[k]) == files[k]
  {
    hide FirstCluster, IsChain, Walk, Key;
    if FirstCluster(recs[k]) >= 2 {
      ChainNonEmpty(fat, max, files[k]);
      WalkOfChain(fat, max, files[k]);
    }
  }

  /**
   What the run leaves out: the deletion of a record that names the directory itself, as `.` does, frees every cluster
   of the directory it is in.
   */
  method DeleteSelf(v: Volume, parent: nat, name: seq<Byte>, ghost ch: seq<nat>, ghost files: seq<seq<nat>>)
    returns (r: int)
    requires Keeps(v, parent, ch, files) && v.table.dev.Reliable() && !v.table.readonly && 0 !in name
    requires match Find(DirRecords(v.data, ch), name, true, 0)
             case None => false
             case Some(k) => FirstCluster(DirRecords(v.data, ch)[k]) == parent
    modifies v, v.buffer, v.table`fat, v.table.dev, v.table.cache
    ensures v.Valid() && r == 0 && v.Fat() == FreedAll(old(v.Fat()), ch)
    ensures forall i :: 0 <= i < |ch| ==> ch[i] < |v.Fat()| && IsFree(v.Fat(), ch[i])
  {
    hide Volume.Valid, IsChain, Content, WellFormed, Find, FreedAll, FirstCluster, Erased, Sound, Walk, DisjointChains;
    ghost var fat0 := v.Fat();
    KeepsFacts(v, parent, ch, files);
    ChainNonEmpty(fat0, v.Max(), ch);
    WalkOfChain(fat0, v.Max(), ch);
    ghost var slot;
    r, slot := DeleteEntry(v, parent, name, ch);
    forall i | 0 <= i < |ch| ensures ch[i] < |v.Fat()| && IsFree(v.Fat(), ch[i]) {
      FreedAt(fat0, ch, ch[i]);
    }
  }

  lemma ErasedKeeps(recs: seq<Record>, name: seq<Byte>)
    requires WellFormed(recs) && NoLabel(recs, name) && Find(recs, name, true, 0).Some?
    ensures var k := Find(recs, name, true, 0).value;
            var recs' := recs[k := Erased(recs[k])];
            WellFormed(recs') && NameMap(recs') == NameMap(recs) - {Upper(name)}
  {
    hide NameMap, NoDuplicates, TailIsEnd, Find, Erased, NoLabel;
    RemoveHits(recs, name);
    DeleteThenFind(recs, name);
  }

  /** Whether a creation would be stuck, by looking for the name, a slot and room. */
  method IsStuck(v: Volume, parent: nat, call: DirCall, ghost ch: seq<nat>, ghost files: seq<seq<nat>>)
    returns (stuck: bool)
    requires Keeps(v, parent, ch, files) && v.table.dev.Reliable() && 0 !in call.name
    modifies v.buffer, v.table`fat, v.table.dev, v.table.cache
    ensures Keeps(v, parent, ch, files) && v.Fat() == old(v.Fat())
    ensures stuck == Stuck(v, call, ch)
  {
    hide Volume.Valid, IsChain, Content, NameMap, WellFormed, Sound, FirstUnused, SearchOk, Room, NewRecord, Upper;
    stuck := false;
    if call.Open? && !v.table.readonly {
      KeepsFacts(v, parent, ch, files);
      var out := Look(v, parent, call.name, ch, files);
      if out.Rec? {
        return;
      }
      var found, cluster, i;
      ghost var q;
      found, cluster, i, q := FindSlot(v, parent, ch);
      if !found {
        var room := FatRuns.HasRoom(v, 1);
        RoomOne(v.Fat(), v.nextFree, v.Max());
        stuck := !room;
      }
    }
  }

  /** One call does what it is for, and keeps the directory and its files well formed and apart. */
  method Perform(v: Volume, parent: nat, call: DirCall, ghost ch: seq<nat>, ghost files: seq<seq<nat>>)
    returns (out: Out, ghost ch': seq<nat>, ghost files': seq<seq<nat>>)
    requires Keeps(v, parent, ch, files) && v.table.dev.Reliable() && Usable(call) && !Stuck(v, call, ch)
    requires NoLabel(DirRecords(v.data, ch), call.name)
    modifies v, v.buffer, v.table`fat, v.table.dev, v.table.cache
    ensures Keeps(v, parent, ch', files')
    ensures Takes(v.Max(), v.table.readonly, old(DirOf(v, ch, files)), call, out, DirOf(v, ch', files'))
    ensures forall other :: old(NoLabel(DirRecords(v.data, ch), other)) ==> NoLabel(DirRecords(v.data, ch'), other)
  {
    hide Volume.Valid, WellFormed, Sound, NoLabel, Answers, NameMap, Content;
    ch', files' := ch, files;
    match call {
      case LookUp(name) =>
        out := Look(v, parent, name, ch, files);
      case Open(name) =>
        out, ch', files' := Create(v, parent, name, ch, files);
      case Remove(name) =>
        out, files' := Delete(v, parent, name, ch, files);
    }
  }

  /** A run: every call took the directory from one state to the next. */
  ghost predicate Ran(max: nat, readonly: bool, calls: seq<DirCall>, outs: seq<Out>, dirs: seq<Dir>)
  {
    && |outs| <= |calls| && |dirs| == |outs| + 1
    && forall k :: 0 <= k < |outs| ==> Takes(max, readonly, dirs[k], calls[k], outs[k], dirs[k + 1])
  }

  lemma RanNext(max: nat, readonly: bool, calls: seq<DirCall>, outs: seq<Out>, dirs: seq<Dir>, out: Out, d: Dir)
    requires Ran(max, readonly, calls, outs, dirs) && |outs| < |calls|
    requires Takes(max, readonly, dirs[|outs|], calls[|outs|], out, d)
    ensures Ran(max, readonly, calls, outs + [out], dirs + [d])
  {
    hide Takes;
    var outs', dirs' := outs + [out], dirs + [d];
    forall k | 0 <= k < |outs'| ensures Takes(max, readonly, dirs'[k], calls[k], outs'[k], dirs'[k + 1]) {
      if k < |outs| {
        assert Takes(max, readonly, dirs[k], calls[k], outs[k], dirs[k + 1]);
      }
    }
  }

  /** Over a run nothing outside the directory changes. */
  lemma {:induction false} RanKeeps(max: nat, readonly: bool, calls: seq<DirCall>, outs: seq<Out>, dirs: seq<Dir>,
      n: nat)
    requires Ran(max, readonly, calls, outs, dirs) && n <= |outs|
    ensures OthersKept(dirs[0], dirs[n])
  {
    hide Takes;
    if n > 0 {
      RanKeeps(max, readonly, calls, outs, dirs, n - 1);
      assert Takes(max, readonly, dirs[n - 1], calls[n - 1], outs[n - 1], dirs[n - 1 + 1]);
      TakesKeeps(max, readonly, dirs[n - 1], calls[n - 1], outs[n - 1], dirs[n]);
      assert forall c :: c in dirs[n - 1].ch ==> c in dirs[n].ch;
    }
  }

  lemma TakesKeeps(max: nat, readonly: bool, d: Dir, call: DirCall, out: Out, d': Dir)
    requires Takes(max, readonly, d, call, out, d')
    ensures OthersKept(d, d')
  {
  }

  /** Every file in the directory has the bytes it had in `data`. */
  ghost predicate BytesKept(data: seq<seq<Byte>>, d: Dir)
  {
    forall k :: 0 <= k < |d.files| ==>
      && Inside(data, d.files[k]) && Inside(d.data, d.files[k])
      && Content(d.data, d.files[k]) == Content(data, d.files[k])
  }

  lemma FilesKept(max: nat, data: seq<seq<Byte>>, recs: seq<Record>, d: Dir)
    requires Sound(d.fat, max, recs, d.ch, d.files) && |data| == |d.data| == max
    requires forall c :: 2 <= c < |data| && c !in d.ch ==> d.data[c] == data[c]
    ensures BytesKept(data, d)
  {
    hide Content;
    forall k | 0 <= k < |d.files|
      ensures Inside(data, d.files[k]) && Inside(d.data, d.files[k])
      ensures Content(d.data, d.files[k]) == Content(data, d.files[k])
    {
      assert Owns(recs[k], d.fat, max, d.files[k]) && DisjointChains(d.files[k], d.ch);
      ContentFrame(data, d.data, d.files[k]);
    }
  }

  /**
   Any sequence of lookups, opens and deletions in one directory, with names that no volume label in it has, up to
   the first creation that is stuck: the directory implements the map, every result is the map's, the files in it stay
   well formed and apart and keep their bytes, and no cluster outside the directory changes.
   */
  method Run(v: Volume, parent: nat, calls: seq<DirCall>, ghost ch: seq<nat>, ghost files: seq<seq<nat>>)
    returns (outs: seq<Out>, ghost ch': seq<nat>, ghost files': seq<seq<nat>>, ghost dirs: seq<Dir>)
    requires Keeps(v, parent, ch, files) && v.table.dev.Reliable()
    requires forall k :: 0 <= k < |calls| ==> Usable(calls[k]) && NoLabel(DirRecords(v.data, ch), calls[k].name)
    modifies v, v.buffer, v.table`fat, v.table.dev, v.table.cache
    ensures Keeps(v, parent, ch', files') && Ran(v.Max(), v.table.readonly, calls, outs, dirs)
    ensures dirs[0] == old(DirOf(v, ch, files)) && dirs[|outs|] == DirOf(v, ch', files')
    ensures OthersKept(old(DirOf(v, ch, files)), DirOf(v, ch', files'))
    ensures BytesKept(old(v.data), DirOf(v, ch', files'))
    ensures |outs| < |calls| ==> Stuck(v, calls[|outs|], ch')
  {
    hide Volume.Valid, WellFormed, Sound, NoLabel, NameMap, Content, Stuck, Takes, Ran, OthersKept, BytesKept, Usable;
    outs, ch', files', dirs := [], ch, files, [DirOf(v, ch, files)];
    RanNothing(v.Max(), v.table.readonly, calls, dirs[0]);
    v.Facts();
    ghost var data0 := v.data;
    while |outs| < |calls|
      invariant |outs| <= |calls| && |dirs| == |outs| + 1 && Keeps(v, parent, ch', files')
      invariant Ran(v.Max(), v.table.readonly, calls, outs, dirs)
      invariant dirs[0] == old(DirOf(v, ch, files)) && dirs[|outs|] == DirOf(v, ch', files')
      invariant forall k :: 0 <= k < |calls| ==> NoLabel(DirRecords(v.data, ch'), calls[k].name)
      decreases |calls| - |outs|
    {
      var call := calls[|outs|];
      UsableName(call);
      var stuck := IsStuck(v, parent, call, ch', files');
      if stuck {
        break;
      }
      var out;
      out, ch', files' := Perform(v, parent, call, ch', files');
      RanNext(v.Max(), v.table.readonly, calls, outs, dirs, out, DirOf(v, ch', files'));
      outs, dirs := outs + [out], dirs + [DirOf(v, ch', files')];
    }
    RanKeeps(v.Max(), v.table.readonly, calls, outs, dirs, |outs|);
    v.Facts();
    KeptFacts(dirs[0], dirs[|outs|]);
    FilesKept(v.Max(), data0, DirRecords(v.data, ch'), DirOf(v, ch', files'));
  }

  lemma KeptFacts(d: Dir, d': Dir)
    requires OthersKept(d, d')
    ensures |d'.data| == |d.data| && forall c :: 2 <= c < |d.data| && c !in d'.ch ==> d'.data[c] == d.data[c]
  {
  }

  lemma UsableName(call: DirCall)
    requires Usable(call)
    ensures 0 !in call.name
  {
  }

  lemma RanNothing(max: nat, readonly: bool, calls: seq<DirCall>, d: Dir)
    ensures Ran(max, readonly, calls, [], [d])
  {
  }
}
