/**
 Runs of file operations on a volume: whatever is called on whatever file, the files stay apart.
 */
module FatRuns {
  import opened Bytes
  import opened FatTables
  import opened FatChains
  import opened FatFiles
  import opened FatVolume

  datatype Call = NewFile | WriteAt(i: nat, offset: nat, bytes: seq<Byte>) | Resize(i: nat, size: nat)

  ghost function WorldOf(v: Volume, files: seq<seq<nat>>): World
    reads v, v.table
  {
    World(v.Fat(), v.data, files)
  }

  /** The files of the world are the chains the entries name. */
  ghost predicate Named(max: nat, entries: seq<FileEntry>, w: World)
  {
    && |entries| == |w.files|
    && forall j :: 0 <= j < |entries| ==>
        entries[j].size < 0x1_0000_0000 && HasChain(entries[j], w.fat, max, w.files[j])
  }

  ghost predicate Keeps(v: Volume, entries: seq<FileEntry>, files: seq<seq<nat>>)
    reads v, v.table, v.table.dev, v.table.cache, v.buffer
  {
    v.Valid() && Named(v.Max(), entries, WorldOf(v, files)) && Sound(v.Max(), v.Size(), WorldOf(v, files))
  }

  predicate Possible(call: Call, n: nat) {
    match call
    case NewFile => true
    case WriteAt(i, _, _) => i < n
    case Resize(i, size) => i < n && size < 0x1_0000_0000
  }

  /** Every call on a file that is there is possible. */
  lemma AnyFile(i: nat, offset: nat, bytes: seq<Byte>, size: nat, n: nat)
    requires i < n && size < 0x1_0000_0000
    ensures Possible(NewFile, n) && Possible(WriteAt(i, offset, bytes), n) && Possible(Resize(i, size), n)
  {
  }

  /** The directory entries of the files, and the volume they are on. */
  datatype Shot = Shot(entries: seq<FileEntry>, world: World)

  const NEW_ENTRY := FileEntry(0, 0, 0x20)

  /**
   What a write may return: an error code, or how many bytes were written; less than all only when `fat` is full and
   the file, now of `clusters` clusters, has no more room.
   */
  ghost predicate WriteResult(readonly: bool, e: FileEntry, job: Job, r: int, fat: seq<nat>, clusters: nat)
  {
    if readonly then r == ERR_ROFS
    else if e.IsDirectory() then r == ERR_ISDIR
    else if job.bytes == [] then r == 0
    else
      && (r == ERR_NOSPC || 0 < r <= |job.bytes|)
      && (r < |job.bytes| ==>
            job.max <= |fat| && FreeCount(fat, 2, job.max) == 0 && job.StopsAt(clusters, r))
  }

  /** From `s` to `s'` the call did what it is for: it returned `r`, and `act` is what it did to the volume. */
  ghost predicate Takes(max: nat, size: nat, readonly: bool, s: Shot, call: Call, r: int, act: Act, s': Shot)
  {
    && size > 0 && |s.entries| == |s.world.files| && Does(max, size, s.world, act, s'.world)
    && match call
       case NewFile => act.Create? && r == 0 && s'.entries == s.entries + [NEW_ENTRY]
       case WriteAt(i, offset, bytes) =>
         && i < |s.entries| && |s'.entries| == |s.entries|
         && act.Write? && act.i == i && act.job == Job(max, size, WritePosition(offset, size), bytes)
         && act.n == (if r < 0 then 0 else r)
         && i < |s'.world.files|
         && WriteResult(readonly, s.entries[i], act.job, r, s'.world.fat, |s'.world.files[i]|)
         && s'.entries == s.entries[i := s'.entries[i]] && s'.entries[i].attr == s.entries[i].attr
         && s'.entries[i].size == (if r > 0 then GrownSize(s.entries[i].size, offset, r) else s.entries[i].size)
       case Resize(i, n) =>
         && i < |s.entries| && |s'.entries| == |s.entries|
         && r == (if readonly then ERR_ROFS else 0)
         && act == Shorten(i, if readonly then |s.world.files[i]|
                              else |KeptClusters(s.world.files[i], s.entries[i].size, n, size)|)
         && s'.entries == s.entries[i := s'.entries[i]] && s'.entries[i].attr == s.entries[i].attr
         && s'.entries[i].size == (if readonly then s.entries[i].size else n)
  }

  /** The last data cluster is in use but belongs to no file, and the hint is a data cluster or below. */
  ghost predicate LastSetAside(v: Volume, files: seq<seq<nat>>)
    reads v, v.table
  {
    && 2 < v.Max() <= |v.Fat()| && StartOf(v.nextFree) < v.Max()
    && !IsFree(v.Fat(), v.Max() - 1)
    && forall j :: 0 <= j < |files| ==> v.Max() - 1 !in files[j]
  }

  /** The clusters a call may have to add to its file. */
  function Demand(call: Call, size: nat): nat
    requires size > 0
  {
    if call.WriteAt? && call.bytes != [] then CeilDiv(WritePosition(call.offset, size) + |call.bytes|, size) else 0
  }

  /** A write demands no more clusters than cover the file up to its end. */
  lemma DemandBound(i: nat, offset: nat, bytes: seq<Byte>, size: nat)
    requires 0 < size && offset < 0x1_0000_0000
    ensures var d := Demand(WriteAt(i, offset, bytes), size);
            && (bytes == [] ==> d == 0)
            && (bytes != [] ==> d > 0 && (d - 1) * size < offset + |bytes| <= d * size)
  {
    hide CeilDiv;
    PositionExact(offset, size);
    var d := Demand(WriteAt(i, offset, bytes), size);
    if bytes != [] {
      CeilDivExceeds(offset + |bytes|, 0, size);
      CeilDivExceeds(offset + |bytes|, d - 1, size);
      CeilDivExceeds(offset + |bytes|, d, size);
    }
  }

  function TotalDemand(calls: seq<Call>, size: nat): nat
    requires size > 0
  {
    if calls == [] then 0 else Demand(calls[0], size) + TotalDemand(calls[1..], size)
  }

  lemma TotalDemandNext(calls: seq<Call>, size: nat, k: nat)
    requires size > 0 && k < |calls|
    ensures TotalDemand(calls[k..], size) == Demand(calls[k], size) + TotalDemand(calls[k + 1..], size)
  {
    assert calls[k..][1..] == calls[k + 1..];
  }

  /** With enough free clusters ahead of the hint a write finds room. */
  lemma RoomAhead(v: Volume, i: nat, offset: nat, bytes: seq<Byte>, ch: seq<nat>)
    requires v.Valid() && Demand(WriteAt(i, offset, bytes), v.Size()) <= v.FreeAhead()
    ensures v.RoomFor(offset, bytes, ch)
  {
    hide FatTable.Valid, DataOnDisk, FitsDevice, ClusterSize, CeilDiv, Room, Ahead, WritePosition;
    var need := v.JobOf(offset, bytes).Clusters();
    if bytes != [] && need > |ch| {
      AheadIsRoom(v.Fat(), v.nextFree, v.Max(), need - |ch|);
    }
  }

  /** With the last cluster set aside the allocator never runs off the end. */
  lemma AlwaysRoom(v: Volume, files: seq<seq<nat>>, offset: nat, bytes: seq<Byte>, ch: seq<nat>)
    requires v.Valid() && LastSetAside(v, files)
    ensures v.RoomFor(offset, bytes, ch)
  {
  }

  lemma SoundChain(max: nat, size: nat, w: World, j: nat)
    requires Sound(max, size, w) && j < |w.files|
    ensures IsChainOrEmpty(w.fat, max, w.files[j])
  {
  }

  /** A call on one file leaves the other entries with their chains. */
  lemma OthersNamed(max: nat, size: nat, entries: seq<FileEntry>, w: World, act: Act, w': World, j: nat)
    requires Named(max, entries, w) && Sound(max, size, w) && Does(max, size, w, act, w')
    requires j < |entries| && (act.Create? || j != act.i)
    ensures j < |w'.files| && w'.files[j] == w.files[j] && HasChain(entries[j], w'.fat, max, w'.files[j])
  {
    hide IsChain, Does, Sound, Content;
    ActSound(max, size, w, act, w');
    SameFile(max, size, w, act, w', j);
    SoundChain(max, size, w', j);
    if entries[j].first >= 2 {
      ChainNonEmpty(w.fat, max, w.files[j]);
    }
  }

  lemma SameFile(max: nat, size: nat, w: World, act: Act, w': World, j: nat)
    requires Does(max, size, w, act, w') && j < |w.files| && (act.Create? || j != act.i)
    ensures j < |w'.files| && w'.files[j] == w.files[j]
  {
  }

  lemma FileCount(max: nat, size: nat, w: World, act: Act, w': World)
    requires Does(max, size, w, act, w')
    ensures |w'.files| == if act.Create? then |w.files| + 1 else |w.files|
    ensures act.Create? ==> w'.files[|w.files|] == []
    ensures !act.Create? ==> act.i < |w.files|
  {
  }

  /** After a call the entries name the files again: `e` is the new entry, or the changed one. */
  lemma NamedAfter(max: nat, size: nat, entries: seq<FileEntry>, e: FileEntry, w: World, act: Act, w': World)
    requires Named(max, entries, w) && Sound(max, size, w) && Does(max, size, w, act, w') && e.size < 0x1_0000_0000
    requires if act.Create? then e.first == 0
             else act.i < |w'.files| && HasChain(e, w'.fat, max, w'.files[act.i])
    ensures Sound(max, size, w')
    ensures act.Create? ==> Named(max, entries + [e], w')
    ensures !act.Create? ==> act.i < |entries| && Named(max, entries[act.i := e], w')
  {
    hide Does, Sound, IsChain, Content;
    ActSound(max, size, w, act, w');
    FileCount(max, size, w, act, w');
    forall j | 0 <= j < |entries| && (act.Create? || j != act.i)
      ensures w'.files[j] == w.files[j] && HasChain(entries[j], w'.fat, max, w'.files[j])
    {
      OthersNamed(max, size, entries, w, act, w', j);
    }
  }

  lemma ValidFacts(v: Volume)
    requires v.Valid()
    ensures v.Size() > 0 && 2 < v.Max() <= |v.Fat()| == v.table.geo.fatSectors * 128 && v.Max() <= CLUSTER_BAD
  {
  }

  lemma FirstInRange(e: FileEntry, fat: seq<nat>, max: nat, ch: seq<nat>)
    requires HasChain(e, fat, max, ch) && max <= CLUSTER_BAD
    ensures e.first < 0x1000_0000 && IsChainOrEmpty(fat, max, ch)
  {
  }

  /** A file write, seen by all files. */
  method WriteTo(v: Volume, i: nat, offset: nat, bytes: seq<Byte>, entries: seq<FileEntry>, ghost files: seq<seq<nat>>)
    returns (r: int, entries': seq<FileEntry>, ghost files': seq<seq<nat>>, ghost act: Act)
    requires v.table.dev.Reliable() && Keeps(v, entries, files) && i < |entries| == |files|
    requires v.table.readonly || entries[i].IsDirectory() || v.RoomFor(offset, bytes, files[i])
    modifies v, v.buffer, v.table`fat, v.table.dev, v.table.cache
    ensures Keeps(v, entries', files')
    ensures Takes(v.Max(), v.Size(), v.table.readonly, Shot(entries, old(WorldOf(v, files))),
              WriteAt(i, offset, bytes), r, act, Shot(entries', WorldOf(v, files')))
    ensures old(LastSetAside(v, files)) ==> LastSetAside(v, files')
    ensures v.Size() > 0 && v.FreeAhead() + Demand(WriteAt(i, offset, bytes), v.Size()) >= old(v.FreeAhead())
  {
    hide Volume.Valid, Sound, IsChain, Progress, Room, CeilDiv, Content, DisjointChains, GrownSize, Volume.FreeAhead,
      WritePosition;
    ValidFacts(v);
    ghost var w, last := WorldOf(v, files), v.Max() - 1;
    var e;
    ghost var ch, job := [], v.JobOf(offset, bytes);
    r, e, ch := v.WriteFile(entries[i], offset, bytes, files[i]);
    ghost var n: nat := if r < 0 then 0 else r;
    files', entries', act := files[i := ch], entries[i := e], Write(i, job, n, ch);
    SizeFits(entries[i].size, offset, n);
    NamedAfter(v.Max(), v.Size(), entries, e, w, act, WorldOf(v, files'));
    if !IsFree(w.fat, last) && last !in files[i] {
      ProgressSpares(job, Snapshot(w.fat, w.data, files[i]), Snapshot(v.Fat(), v.data, ch), n, last);
    }
    ProgressFacts(job, Snapshot(w.fat, w.data, files[i]), Snapshot(v.Fat(), v.data, ch), n);
  }

  lemma SizeFits(size: nat, offset: nat, n: nat)
    requires size < 0x1_0000_0000
    ensures GrownSize(size, offset, n) < 0x1_0000_0000
  {
  }

  /** A truncation, seen by all files. */
  method ResizeTo(v: Volume, i: nat, size: nat, entries: seq<FileEntry>, ghost files: seq<seq<nat>>)
    returns (r: int, entries': seq<FileEntry>, ghost files': seq<seq<nat>>, ghost act: Act)
    requires v.table.dev.Reliable() && Keeps(v, entries, files) && i < |entries| == |files| && size < 0x1_0000_0000
    modifies v, v.table`fat, v.table.dev, v.table.cache
    ensures Keeps(v, entries', files')
    ensures Takes(v.Max(), v.Size(), v.table.readonly, Shot(entries, old(WorldOf(v, files))), Resize(i, size), r, act,
              Shot(entries', WorldOf(v, files')))
    ensures old(LastSetAside(v, files)) ==> LastSetAside(v, files')
    ensures v.FreeAhead() >= old(v.FreeAhead())
  {
    hide Volume.Valid, Sound, IsChain, Content, DisjointChains, KeptClusters, CutTable, Ahead;
    ValidFacts(v);
    ghost var w := WorldOf(v, files);
    FirstInRange(entries[i], v.Fat(), v.Max(), files[i]);
    var e;
    ghost var ch;
    r, e, ch := v.Truncate(entries[i], size, files[i]);
    files', entries', act := files[i := ch], entries[i := e], Shorten(i, |ch|);
    assert files[i][..|ch|] == ch;
    ValidFacts(v);
    CutKeeps(w.fat, v.Max(), files[i], |ch|);
    AheadGrows(w.fat, v.Fat(), v.nextFree, v.Max());
    FirstInRange(e, v.Fat(), v.Max(), ch);
    NamedAfter(v.Max(), v.Size(), entries, e, w, act, WorldOf(v, files'));
  }

  /** The call is a write that needs room and does not find it. */
  ghost predicate Stuck(v: Volume, call: Call, entries: seq<FileEntry>, files: seq<seq<nat>>)
    reads v, v.table, v.table.dev, v.table.cache, v.buffer
  {
    && v.Valid() && call.WriteAt? && call.i < |entries| && call.i < |files|
    && !v.table.readonly && !entries[call.i].IsDirectory() && !v.RoomFor(call.offset, call.bytes, files[call.i])
  }

  /** One call does what it is for, and keeps all files well formed and apart. */
  method Perform(v: Volume, call: Call, entries: seq<FileEntry>, ghost files: seq<seq<nat>>)
    returns (r: int, entries': seq<FileEntry>, ghost files': seq<seq<nat>>, ghost act: Act)
    requires v.table.dev.Reliable() && Keeps(v, entries, files) && Possible(call, |entries|) && |entries| == |files|
    requires !Stuck(v, call, entries, files)
    modifies v, v.buffer, v.table`fat, v.table.dev, v.table.cache
    ensures Keeps(v, entries', files')
    ensures Takes(v.Max(), v.Size(), v.table.readonly, Shot(entries, old(WorldOf(v, files))), call, r, act,
              Shot(entries', WorldOf(v, files')))
    ensures old(LastSetAside(v, files)) ==> LastSetAside(v, files')
    ensures v.Size() > 0 && v.FreeAhead() + Demand(call, v.Size()) >= old(v.FreeAhead())
  {
    hide Volume.Valid, Sound, IsChain, Progress, Room, CeilDiv, Content, DisjointChains, Volume.FreeAhead,
      Volume.RoomFor;
    ValidFacts(v);
    match call {
      case NewFile =>
        r, entries', files', act := 0, entries + [NEW_ENTRY], files + [[]], Create;
        NamedAfter(v.Max(), v.Size(), entries, NEW_ENTRY, WorldOf(v, files), act, WorldOf(v, files'));
      case WriteAt(i, offset, bytes) =>
        r, entries', files', act := WriteTo(v, i, offset, bytes, entries, files);
      case Resize(i, size) =>
        r, entries', files', act := ResizeTo(v, i, size, entries, files);
    }
  }

  ghost predicate Unnamed(calls: seq<Call>, j: nat)
  {
    forall k :: 0 <= k < |calls| ==> calls[k].NewFile? || calls[k].i != j
  }

  /** A run: every call took the files and the volume from one shot to the next. */
  ghost predicate Ran(max: nat, size: nat, readonly: bool, calls: seq<Call>, results: seq<int>, shots: seq<Shot>,
      acts: seq<Act>)
  {
    && |results| == |acts| <= |calls| && |shots| == |acts| + 1
    && forall k :: 0 <= k < |acts| ==> Takes(max, size, readonly, shots[k], calls[k], results[k], acts[k], shots[k + 1])
  }

  lemma RanNext(max: nat, size: nat, readonly: bool, calls: seq<Call>, results: seq<int>, shots: seq<Shot>,
      acts: seq<Act>, r: int, act: Act, s: Shot)
    requires Ran(max, size, readonly, calls, results, shots, acts) && |acts| < |calls|
    requires Takes(max, size, readonly, shots[|acts|], calls[|acts|], r, act, s)
    ensures Ran(max, size, readonly, calls, results + [r], shots + [s], acts + [act])
  {
    hide Takes;
    var results', shots', acts' := results + [r], shots + [s], acts + [act];
    forall k | 0 <= k < |acts'|
      ensures Takes(max, size, readonly, shots'[k], calls[k], results'[k], acts'[k], shots'[k + 1])
    {
      if k < |acts| {
        assert Takes(max, size, readonly, shots[k], calls[k], results[k], acts[k], shots[k + 1]);
      }
    }
  }

  lemma TakesFacts(max: nat, size: nat, readonly: bool, s: Shot, call: Call, r: int, act: Act, s': Shot)
    requires Takes(max, size, readonly, s, call, r, act, s')
    ensures Does(max, size, s.world, act, s'.world)
    ensures if call.NewFile? then act.Create? else !act.Create? && act.i == call.i
  {
    hide Does;
  }

  /** After a run all files are well formed and apart, and a file no call names has its clusters and bytes. */
  lemma RanSound(max: nat, size: nat, readonly: bool, calls: seq<Call>, results: seq<int>, shots: seq<Shot>,
      acts: seq<Act>)
    requires Ran(max, size, readonly, calls, results, shots, acts) && Sound(max, size, shots[0].world)
    ensures Sound(max, size, shots[|acts|].world)
    ensures forall j: nat :: j < |shots[0].world.files| && Unnamed(calls[..|acts|], j) ==>
              SameIn(shots[0].world, shots[|acts|].world, j)
  {
    hide Takes, Does, Sound, SameIn;
    var worlds := seq(|shots|, k requires 0 <= k < |shots| => shots[k].world);
    forall k | 0 <= k < |acts|
      ensures Does(max, size, worlds[k], acts[k], worlds[k + 1])
    {
      TakesFacts(max, size, readonly, shots[k], calls[k], results[k], acts[k], shots[k + 1]);
    }
    RunSound(max, size, worlds, acts);
    forall j: nat | j < |shots[0].world.files| && Unnamed(calls[..|acts|], j)
      ensures SameIn(shots[0].world, shots[|acts|].world, j)
    {
      forall k | 0 <= k < |acts| ensures acts[k].Create? || acts[k].i != j {
        TakesFacts(max, size, readonly, shots[k], calls[k], results[k], acts[k], shots[k + 1]);
        assert calls[..|acts|][k] == calls[k];
      }
      assert Untouched(acts, j);
    }
  }

  /** The length of a chain, by following it. */
  method ChainLength(v: Volume, first: nat, ghost ch: seq<nat>) returns (n: nat)
    requires v.Valid() && v.table.dev.Reliable() && IsChainOrEmpty(v.Fat(), v.Max(), ch) && v.At(ch, 0, first)
    modifies v.table`fat, v.table.dev, v.table.cache
    ensures v.Valid() && v.Fat() == old(v.Fat()) && n == |ch|
  {
    hide FatTable.Valid, DataOnDisk, FitsDevice, ClusterSize, IsChain;
    var cluster := first;
    n := 0;
    if ch != [] {
      ChainNonEmpty(v.Fat(), v.Max(), ch);
    }
    while InRange(v.Max(), cluster)
      invariant v.Valid() && v.Fat() == old(v.Fat()) && v.At(ch, n, cluster)
      invariant n < |ch| ==> InRange(v.Max(), ch[n])
      decreases |ch| - n
    {
      ChainNext(v.Fat(), v.Max(), ch, n);
      cluster := v.NextCluster(cluster);
      n := n + 1;
    }
  }

  /** The free clusters from `lo` on, counted. */
  method CountFree(v: Volume, lo: nat) returns (n: nat)
    requires v.Valid() && v.table.dev.Reliable()
    modifies v.table`fat, v.table.dev, v.table.cache
    ensures v.Valid() && v.Fat() == old(v.Fat()) && v.Max() <= |v.Fat()| && n == FreeCount(v.Fat(), lo, v.Max())
  {
    hide Volume.Valid;
    n := 0;
    var c := lo;
    ValidFacts(v);
    while c < v.Max()
      invariant v.Valid() && v.Fat() == old(v.Fat()) && lo <= c && (c <= v.Max() || c == lo)
      invariant c <= v.Max() ==> n == FreeCount(v.Fat(), lo, c)
      invariant c > v.Max() ==> n == 0
    {
      var e := v.Entry(c);
      if e == CLUSTER_FREE {
        n := n + 1;
      }
      c := c + 1;
    }
  }

  /** Whether `m` allocations find room, by looking. */
  method HasRoom(v: Volume, m: nat) returns (ok: bool)
    requires v.Valid() && v.table.dev.Reliable()
    modifies v.table`fat, v.table.dev, v.table.cache
    ensures v.Valid() && v.Fat() == old(v.Fat()) && 2 < v.Max() <= |v.Fat()|
    ensures ok == Room(v.Fat(), v.nextFree, v.Max(), m)
  {
    hide Volume.Valid, FreeCount;
    ValidFacts(v);
    var start, words := StartOf(v.nextFree), v.table.geo.fatSectors * 128;
    var last := v.Entry(v.Max() - 1);
    var all := CountFree(v, 2);
    var ahead := CountFree(v, start);
    var guard := CLUSTER_FREE;
    if start < v.Max() < words {
      guard := v.Entry(v.Max());
    } else if v.Max() <= start < words {
      guard := v.Entry(start);
    }
    if start < v.Max() {
      ok := m == 0 || last != CLUSTER_FREE || m <= ahead || (guard != CLUSTER_FREE && all > ahead);
    } else {
      ok := m == 0 || (guard != CLUSTER_FREE && all > 0 && (last != CLUSTER_FREE || m <= all));
    }
  }

  /** Whether a write finds room, by looking. */
  method FindsRoom(v: Volume, entry: FileEntry, offset: nat, bytes: seq<Byte>, ghost ch: seq<nat>) returns (ok: bool)
    requires v.Valid() && v.table.dev.Reliable() && HasChain(entry, v.Fat(), v.Max(), ch)
    modifies v.table`fat, v.table.dev, v.table.cache
    ensures v.Valid() && v.Fat() == old(v.Fat()) && ok == v.RoomFor(offset, bytes, ch)
  {
    hide Volume.Valid, IsChain, CeilDiv, WritePosition, Room;
    ValidFacts(v);
    FirstInRange(entry, v.Fat(), v.Max(), ch);
    if entry.first >= 2 {
      ChainNonEmpty(v.Fat(), v.Max(), ch);
    }
    var held := ChainLength(v, entry.first, ch);
    var need := CeilDiv(WritePosition(offset, v.Size()) + |bytes|, v.Size());
    if bytes == [] || need <= held {
      return true;
    }
    ok := HasRoom(v, need - held);
  }

  /**
   Any sequence of calls on the files of any volume, up to the first that names no file or is a write without room:
   every call does what it is for, all files stay well formed and apart, and a file no call names keeps its bytes. No
   write lacks room if the calls together demand no more than the free clusters ahead of the hint, or if the last
   cluster is in use outside the files.
   */
  method Run(v: Volume, calls: seq<Call>, entries: seq<FileEntry>, ghost files: seq<seq<nat>>)
    returns (results: seq<int>, entries': seq<FileEntry>, ghost files': seq<seq<nat>>, ghost shots: seq<Shot>,
        ghost acts: seq<Act>)
    requires v.table.dev.Reliable() && Keeps(v, entries, files)
    modifies v, v.buffer, v.table`fat, v.table.dev, v.table.cache
    ensures Keeps(v, entries', files') && Ran(v.Max(), v.Size(), v.table.readonly, calls, results, shots, acts)
    ensures shots[0] == Shot(entries, old(WorldOf(v, files))) && shots[|acts|] == Shot(entries', WorldOf(v, files'))
    ensures forall j: nat :: j < |files| && Unnamed(calls[..|results|], j) ==>
              SameIn(old(WorldOf(v, files)), WorldOf(v, files'), j)
    ensures |results| < |calls| ==>
              !Possible(calls[|results|], |entries'|) || Stuck(v, calls[|results|], entries', files')
    ensures old(LastSetAside(v, files)) ==>
              LastSetAside(v, files') && (|results| < |calls| ==> !Possible(calls[|results|], |entries'|))
    ensures v.Size() > 0
    ensures TotalDemand(calls, v.Size()) <= old(v.FreeAhead()) && |results| < |calls| ==>
              !Possible(calls[|results|], |entries'|)
  {
    hide Volume.Valid, Sound, Takes, Named, SameIn, Volume.RoomFor, LastSetAside, Demand, TotalDemand, Volume.FreeAhead,
      Possible, Stuck, Ran;
    results, entries', files', acts := [], entries, files, [];
    ghost var w0, ahead0 := WorldOf(v, files), v.FreeAhead();
    shots := [Shot(entries, w0)];
    ValidFacts(v);
    RanNothing(v.Max(), v.Size(), v.table.readonly, calls, shots[0]);
    assert calls[0..] == calls;
    while |results| < |calls|
      invariant |results| == |acts| <= |calls| && |shots| == |acts| + 1 && Keeps(v, entries', files')
      invariant Ran(v.Max(), v.Size(), v.table.readonly, calls, results, shots, acts)
      invariant shots[0] == Shot(entries, w0) && shots[|acts|] == Shot(entries', WorldOf(v, files'))
      invariant old(LastSetAside(v, files)) ==> LastSetAside(v, files')
      invariant TotalDemand(calls, v.Size()) <= ahead0 ==> TotalDemand(calls[|results|..], v.Size()) <= v.FreeAhead()
      decreases |calls| - |results|
    {
      var call := calls[|results|];
      NamedCount(v.Max(), entries', WorldOf(v, files'));
      TotalDemandNext(calls, v.Size(), |results|);
      if !Possible(call, |entries'|) {
        break;
      }
      var ok := RoomTest(v, call, entries', files');
      if !ok {
        break;
      }
      var r;
      ghost var act;
      r, entries', files', act := Perform(v, call, entries', files');
      RanNext(v.Max(), v.Size(), v.table.readonly, calls, results, shots, acts, r, act,
          Shot(entries', WorldOf(v, files')));
      results, acts, shots := results + [r], acts + [act], shots + [Shot(entries', WorldOf(v, files'))];
    }
    RanSound(v.Max(), v.Size(), v.table.readonly, calls, results, shots, acts);
  }

  lemma RanNothing(max: nat, size: nat, readonly: bool, calls: seq<Call>, s: Shot)
    ensures Ran(max, size, readonly, calls, [], [s], [])
  {
  }

  /** The room test of a run, and when it succeeds for certain. */
  method RoomTest(v: Volume, call: Call, entries: seq<FileEntry>, ghost files: seq<seq<nat>>) returns (ok: bool)
    requires v.table.dev.Reliable() && Keeps(v, entries, files) && Possible(call, |entries|) && |entries| == |files|
    modifies v.table`fat, v.table.dev, v.table.cache
    ensures Keeps(v, entries, files) && WorldOf(v, files) == old(WorldOf(v, files))
    ensures v.FreeAhead() == old(v.FreeAhead()) && ok == !Stuck(v, call, entries, files)
    ensures old(LastSetAside(v, files)) ==> ok && LastSetAside(v, files)
    ensures v.Size() > 0 && (Demand(call, v.Size()) <= v.FreeAhead() ==> ok)
  {
    hide Volume.Valid, Sound, IsChain, Content, DisjointChains, Volume.RoomFor, Demand;
    ValidFacts(v);
    ok := true;
    if call.WriteAt? && !v.table.readonly && !entries[call.i].IsDirectory() {
      ok := FindsRoom(v, entries[call.i], call.offset, call.bytes, files[call.i]);
      if LastSetAside(v, files) {
        AlwaysRoom(v, files, call.offset, call.bytes, files[call.i]);
      }
      if Demand(call, v.Size()) <= v.FreeAhead() {
        RoomAhead(v, call.i, call.offset, call.bytes, files[call.i]);
      }
    }
  }

  lemma NamedCount(max: nat, entries: seq<FileEntry>, w: World)
    requires Named(max, entries, w)
    ensures |entries| == |w.files|
  {
  }
}
