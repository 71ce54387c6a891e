/**
 What a file write does to a volume, as a relation between snapshots of the FAT, the data clusters and
 the file's chain: how far the write has got, and what it has left alone.
 */
module FatFiles {
  import opened Bytes
  import opened FatTables
  import opened FatChains

  /** `piece` written over `s` at `at`. */
  function Splice(s: seq<Byte>, at: nat, piece: seq<Byte>): (r: seq<Byte>)
    requires at + |piece| <= |s|
    ensures |r| == |s|
    ensures forall j :: 0 <= j < |s| ==> r[j] == if at <= j < at + |piece| then piece[j - at] else s[j]
  {
    s[..at] + piece + s[at + |piece|..]
  }

  /** The bytes `bytes` go to byte position `pos` of a file on a volume with clusters of `size` bytes. */
  datatype Job = Job(max: nat, size: nat, pos: nat, bytes: seq<Byte>) {
    /** Clusters the file must have for the whole write. */
    function Clusters(): nat
      requires size > 0
    {
      CeilDiv(pos + |bytes|, size)
    }

    /**
     Where a write short of space leaves a file of `clusters` clusters: with an error code it ends before the
     position, with a result `r` the bytes written reach its end.
     */
    predicate StopsAt(clusters: nat, r: int) {
      if r < 0 then clusters * size <= pos else pos + r == clusters * size
    }
  }

  lemma StopsEarly(job: Job, clusters: nat, skip: nat, r: int)
    requires clusters <= skip && skip * job.size <= job.pos && r < 0
    ensures job.StopsAt(clusters, r)
  {
    MulLe(clusters, skip, job.size);
  }

  datatype Snapshot = Snapshot(fat: seq<nat>, data: seq<seq<Byte>>, chain: seq<nat>)

  /**
   The content `after` arises from `before` by writing the first `w` bytes of the job: those bytes are
   in place, every other old byte is untouched, and clusters added below the write position are zero
   (except that the first cluster of a file that had none keeps what it held).
   */
  ghost predicate Written(job: Job, before: seq<Byte>, after: seq<Byte>, w: nat)
  {
    && w <= |job.bytes|
    && |before| <= |after|
    && (w > 0 ==> job.pos + w <= |after|)
    && (forall j :: 0 <= j < |before| && !(job.pos <= j < job.pos + w) ==> after[j] == before[j])
    && (forall j :: job.pos <= j < job.pos + w ==> after[j] == job.bytes[j - job.pos])
    && (forall j :: |before| <= j < |after| && job.size <= j < job.pos ==> after[j] == 0)
  }

  ghost predicate Framed(job: Job, s0: Snapshot, s: Snapshot)
  {
    && |s0.data| == |s.data| == job.max
    && Uniform(s.data, job.size)
    && forall c :: 2 <= c < job.max && c !in s.chain ==> s.data[c] == s0.data[c]
  }

  /** The first cluster of a file that had none keeps what it held, outside the bytes written. */
  ghost predicate FirstKept(job: Job, s0: Snapshot, s: Snapshot, w: nat)
  {
    s0.chain == [] && s.chain != [] && 2 <= s.chain[0] < |s.data| && |s0.data| == |s.data| ==>
      && |s0.data[s.chain[0]]| == |s.data[s.chain[0]]|
      && forall j :: 0 <= j < |s.data[s.chain[0]]| && !(job.pos <= j < job.pos + w) ==>
           s.data[s.chain[0]][j] == s0.data[s.chain[0]][j]
  }

  /** From `s0` to `s`, `w` bytes of the job have been written. */
  ghost predicate Progress(job: Job, s0: Snapshot, s: Snapshot, w: nat)
  {
    && Grown(s0.fat, s.fat, job.max, s0.chain, s.chain)
    && Framed(job, s0, s) && FirstKept(job, s0, s, w)
    && Inside(s0.data, s0.chain) && Inside(s.data, s.chain)
    && Written(job, Content(s0.data, s0.chain), Content(s.data, s.chain), w)
  }

  lemma GrownInside(fat0: seq<nat>, fat1: seq<nat>, max: nat, ch0: seq<nat>, ch1: seq<nat>)
    requires Grown(fat0, fat1, max, ch0, ch1)
    ensures forall i :: 0 <= i < |ch1| ==> InRange(max, ch1[i])
    ensures forall i :: 0 <= i < |ch0| ==> InRange(max, ch0[i])
  {
    assert forall i :: 0 <= i < |ch0| ==> ch0[i] == ch1[i];
  }

  lemma ProgressFacts(job: Job, s0: Snapshot, s: Snapshot, w: nat)
    requires Progress(job, s0, s, w)
    ensures job.max <= |s.fat| && |s.data| == job.max && Uniform(s.data, job.size)
    ensures forall i :: 0 <= i < |s.chain| ==> InRange(job.max, s.chain[i])
    ensures s.chain != [] ==> IsChain(s.fat, job.max, s.chain)
  {
  }

  /** The bytes written so far can be read back from the content. */
  lemma ProgressReadBack(job: Job, s0: Snapshot, s: Snapshot, w: nat)
    requires Progress(job, s0, s, w) && w > 0
    ensures Inside(s.data, s.chain) && w <= |job.bytes|
    ensures job.pos + w <= |Content(s.data, s.chain)|
    ensures Content(s.data, s.chain)[job.pos..job.pos + w] == job.bytes[..w]
  {
  }

  /** A write does not touch a cluster that is neither free nor the file's. */
  lemma ProgressSpares(job: Job, s0: Snapshot, s: Snapshot, w: nat, c: nat)
    requires Progress(job, s0, s, w) && c < |s0.fat| && !IsFree(s0.fat, c) && c !in s0.chain
    ensures |s.fat| == |s0.fat| && s.fat[c] == s0.fat[c] && c !in s.chain
  {
    assert forall i :: 0 <= i < |s.chain| ==> s.chain[i] != c;
  }

  lemma ProgressNone(job: Job, s0: Snapshot)
    requires IsChainOrEmpty(s0.fat, job.max, s0.chain) && job.max <= |s0.fat|
    requires |s0.data| == job.max && Uniform(s0.data, job.size)
    ensures Progress(job, s0, s0, 0)
  {
  }

  /** A file that had no cluster gets its first one, whose bytes are not cleared. */
  lemma ProgressFirst(job: Job, s0: Snapshot, c: nat)
    requires s0.chain == [] && job.max <= |s0.fat| && InRange(job.max, c) && IsFree(s0.fat, c)
    requires |s0.data| == job.max && Uniform(s0.data, job.size)
    ensures Progress(job, s0, Snapshot(MarkedEof(s0.fat, c), s0.data, [c]), 0)
  {
    var s := Snapshot(MarkedEof(s0.fat, c), s0.data, [c]);
    GrownFirst(s0.fat, job.max, c);
    assert Content(s.data, s.chain) == Content(s.data, []) + s.data[c] by { assert [c][..0] == []; }
  }

  lemma WrittenMore(job: Job, before: seq<Byte>, after: seq<Byte>, w: nat, block: seq<Byte>)
    requires Written(job, before, after, w)
    requires |after| >= job.pos || forall j :: 0 <= j < |block| ==> block[j] == 0
    ensures Written(job, before, after + block, w)
  {
  }

  lemma FirstKeptExtend(job: Job, s0: Snapshot, s: Snapshot, w: nat, fat': seq<nat>, c: nat, block: seq<Byte>)
    requires FirstKept(job, s0, s, w) && s.chain != [] && c !in s.chain && 2 <= c < |s.data|
    ensures FirstKept(job, s0, Snapshot(fat', s.data[c := block], s.chain + [c]), w)
  {
    assert s.chain[0] in s.chain;
  }

  /** The file grows by one cluster, zeroed, or past the write position. */
  lemma ProgressExtend(job: Job, s0: Snapshot, s: Snapshot, w: nat, c: nat, block: seq<Byte>)
    requires Progress(job, s0, s, w) && s.chain != [] && job.max <= CLUSTER_BAD
    requires InRange(job.max, c) && IsFree(s.fat, c) && |block| == job.size
    requires |s.chain| * job.size >= job.pos || forall j :: 0 <= j < |block| ==> block[j] == 0
    ensures var fat' := Linked(MarkedEof(s.fat, c), s.chain[|s.chain| - 1], c);
            Progress(job, s0, Snapshot(fat', s.data[c := block], s.chain + [c]), w)
  {
    hide Grown, IsChain, Written, FirstKept;
    ProgressFacts(job, s0, s, w);
    var fat' := Linked(MarkedEof(s.fat, c), s.chain[|s.chain| - 1], c);
    var data', ch' := s.data[c := block], s.chain + [c];
    ChainUsed(s.fat, job.max, s.chain);
    assert c !in s.chain;
    FirstKeptExtend(job, s0, s, w, fat', c, block);
    GrownStep(s0.fat, s.fat, job.max, s0.chain, s.chain, c);
    GrownInside(s0.fat, fat', job.max, s0.chain, ch');
    ContentFrame(s.data, data', s.chain);
    assert ch'[..|ch'| - 1] == s.chain;
    assert Content(data', ch') == Content(s.data, s.chain) + block;
    ContentLength(s.data, s.chain, job.size);
    WrittenMore(job, Content(s0.data, s0.chain), Content(s.data, s.chain), w, block);
    assert ch'[|ch'| - 1] == c;
    assert forall k :: k !in ch' ==> k !in s.chain && k != c;
  }

  lemma WrittenSplice(job: Job, before: seq<Byte>, after: seq<Byte>, w: nat, piece: seq<Byte>)
    requires Written(job, before, after, w) && job.pos + w + |piece| <= |after|
    requires w + |piece| <= |job.bytes| && piece == job.bytes[w..w + |piece|]
    ensures Written(job, before, Splice(after, job.pos + w, piece), w + |piece|)
  {
  }

  lemma SpliceInBlock(s: seq<Byte>, base: nat, size: nat, off: nat, piece: seq<Byte>)
    requires base + size <= |s| && off + |piece| <= size
    ensures s[..base] + Splice(s[base..base + size], off, piece) + s[base + size..] == Splice(s, base + off, piece)
  {
    var block := s[base..base + size];
    assert s == s[..base] + block + s[base + size..];
    assert s[..base + off] == s[..base] + block[..off];
    assert s[base + off + |piece|..] == block[off + |piece|..] + s[base + size..];
  }

  /** A piece written inside one cluster of the chain. */
  lemma ContentSplice(data: seq<seq<Byte>>, ch: seq<nat>, size: nat, q: nat, off: nat, piece: seq<Byte>)
    requires Inside(data, ch) && Uniform(data, size) && Distinct(ch) && q < |ch| && off + |piece| <= size
    ensures q * size + off + |piece| <= |Content(data, ch)|
    ensures |data[ch[q]]| == size
    ensures Content(data[ch[q] := Splice(data[ch[q]], off, piece)], ch) ==
              Splice(Content(data, ch), q * size + off, piece)
  {
    hide Content, Splice;
    var was, block := Content(data, ch), Splice(data[ch[q]], off, piece);
    ContentBlock(data, ch, size, q);
    ContentPut(data, ch, size, q, block);
    SpliceInBlock(was, q * size, size, off, piece);
  }

  lemma FirstKeptPut(job: Job, s0: Snapshot, s: Snapshot, w: nat, q: nat, off: nat, piece: seq<Byte>)
    requires FirstKept(job, s0, s, w) && q < |s.chain| && 2 <= s.chain[q] < |s.data| && Distinct(s.chain)
    requires off + |piece| <= |s.data[s.chain[q]]| && (q == 0 ==> job.pos + w == off)
    ensures FirstKept(job, s0, s.(data := s.data[s.chain[q] := Splice(s.data[s.chain[q]], off, piece)]), w + |piece|)
  {
    hide Splice;
    if q > 0 {
      assert s.chain[q] != s.chain[0];
    }
  }

  lemma ProgressPut(job: Job, s0: Snapshot, s: Snapshot, w: nat, q: nat, off: nat, piece: seq<Byte>)
    requires Progress(job, s0, s, w) && q < |s.chain| && off + |piece| <= job.size
    requires job.pos + w == q * job.size + off
    requires w + |piece| <= |job.bytes| && piece == job.bytes[w..w + |piece|]
    ensures |s.data[s.chain[q]]| == job.size
    ensures Progress(job, s0, s.(data := s.data[s.chain[q] := Splice(s.data[s.chain[q]], off, piece)]), w + |piece|)
  {
    hide Written, FirstKept, Splice, Content, Grown, IsChain;
    ProgressFacts(job, s0, s, w);
    ChainDistinct(s.fat, job.max, s.chain);
    ContentSplice(s.data, s.chain, job.size, q, off, piece);
    WrittenSplice(job, Content(s0.data, s0.chain), Content(s.data, s.chain), w, piece);
    FirstKeptPut(job, s0, s, w, q, off, piece);
    assert s.chain[q] in s.chain;
  }

  // ---------- several files ----------

  /** A write to one file leaves every other file's chain and bytes as they were. */
  lemma OtherFileUntouched(job: Job, s0: Snapshot, s: Snapshot, w: nat, other: seq<nat>)
    requires Progress(job, s0, s, w) && IsChainOrEmpty(s0.fat, job.max, other) && DisjointChains(s0.chain, other)
    ensures IsChainOrEmpty(s.fat, job.max, other) && DisjointChains(s.chain, other)
    ensures Inside(s0.data, other) && Inside(s.data, other) && Content(s.data, other) == Content(s0.data, other)
  {
    if other != [] {
      GrownSpares(s0.fat, s.fat, job.max, s0.chain, s.chain, other);
      assert forall i :: 0 <= i < |other| ==> other[i] !in s.chain;
    }
    ContentFrame(s0.data, s.data, other);
  }

  /** The FAT, the data clusters, and the chain of each file (empty for a file without clusters). */
  datatype World = World(fat: seq<nat>, data: seq<seq<Byte>>, files: seq<seq<nat>>)

  /** Every file is a well-formed chain and no two files share a cluster. */
  ghost predicate Sound(max: nat, size: nat, v: World)
  {
    && max <= |v.fat| && |v.data| == max && Uniform(v.data, size)
    && (forall i :: 0 <= i < |v.files| ==> IsChainOrEmpty(v.fat, max, v.files[i]))
    && (forall i, j :: 0 <= i < |v.files| && 0 <= j < |v.files| && i != j ==> DisjointChains(v.files[i], v.files[j]))
  }

  datatype Act =
    | Create
    | Write(i: nat, job: Job, n: nat, chain: seq<nat>)
    | Shorten(i: nat, k: nat)

  /**
   One call: an empty file appears, `n` bytes of a job go to file `i`, or the clusters of file `i` after the first
   `k` are freed.
   */
  ghost predicate Does(max: nat, size: nat, v: World, act: Act, v': World)
  {
    match act
    case Create => v' == v.(files := v.files + [[]])
    case Write(i, job, n, chain) =>
      && i < |v.files| && job.max == max && job.size == size
      && Progress(job, Snapshot(v.fat, v.data, v.files[i]), Snapshot(v'.fat, v'.data, chain), n)
      && v'.files == v.files[i := chain]
    case Shorten(i, k) =>
      && i < |v.files| && k <= |v.files[i]|
      && v' == World(CutTable(v.fat, v.files[i], k), v.data, v.files[i := v.files[i][..k]])
  }

  lemma FreeSpares(fat: seq<nat>, max: nat, ch: seq<nat>, other: seq<nat>)
    requires IsChainOrEmpty(fat, max, other) && DisjointChains(ch, other)
    ensures IsChainOrEmpty(FreedAll(fat, ch), max, other)
  {
    if other != [] {
      assert forall i :: 0 <= i < |other| ==> other[i] !in ch;
      ChainFrame(fat, FreedAll(fat, ch), max, other);
    }
  }

  lemma CutSpares(fat: seq<nat>, fat': seq<nat>, max: nat, ch: seq<nat>, other: seq<nat>)
    requires IsChainOrEmpty(fat, max, other) && DisjointChains(ch, other) && |fat'| == |fat|
    requires forall c :: 0 <= c < |fat| && c !in ch ==> fat'[c] == fat[c]
    ensures IsChainOrEmpty(fat', max, other)
  {
    if other != [] {
      assert forall n :: 0 <= n < |other| ==> other[n] !in ch;
      ChainFrame(fat, fat', max, other);
    }
  }

  lemma ChainInside(fat: seq<nat>, max: nat, ch: seq<nat>, data: seq<seq<Byte>>)
    requires IsChainOrEmpty(fat, max, ch) && |data| == max
    ensures Inside(data, ch)
  {
  }

  /** File `j` has the same clusters and the same bytes in both worlds. */
  ghost predicate SameIn(w: World, w': World, j: nat)
  {
    && j < |w.files| && j < |w'.files| && w'.files[j] == w.files[j]
    && Inside(w.data, w.files[j]) && Inside(w'.data, w'.files[j])
    && Content(w'.data, w'.files[j]) == Content(w.data, w.files[j])
  }

  /** A call keeps all files well formed and apart, and the bytes of every file it does not name. */
  lemma ActSound(max: nat, size: nat, v: World, act: Act, v': World)
    requires Sound(max, size, v) && Does(max, size, v, act, v')
    ensures Sound(max, size, v')
    ensures forall j: nat :: j < |v.files| && (act.Create? || j != act.i) ==> SameIn(v, v', j)
  {
    hide IsChain, Content, Progress, CutTable;
    forall j: nat | j < |v.files|
      ensures Inside(v.data, v.files[j])
    {
      ChainInside(v.fat, max, v.files[j], v.data);
    }
    match act {
      case Create =>
      case Write(i, job, n, chain) =>
        WriteSound(max, size, v, act, v');
      case Shorten(i, k) =>
        CutKeeps(v.fat, max, v.files[i], k);
        forall j | 0 <= j < |v.files| && j != i
          ensures IsChainOrEmpty(v'.fat, max, v.files[j])
        {
          CutSpares(v.fat, v'.fat, max, v.files[i], v.files[j]);
        }
    }
  }

  lemma WriteSound(max: nat, size: nat, v: World, act: Act, v': World)
    requires Sound(max, size, v) && Does(max, size, v, act, v') && act.Write?
    ensures Sound(max, size, v')
    ensures forall j: nat :: j < |v.files| && j != act.i ==> SameIn(v, v', j)
  {
    hide IsChain, Content, Progress;
    var s0, s := Snapshot(v.fat, v.data, v.files[act.i]), Snapshot(v'.fat, v'.data, act.chain);
    ProgressFacts(act.job, s0, s, act.n);
    forall j: nat | j < |v.files| && j != act.i
      ensures IsChainOrEmpty(v'.fat, max, v.files[j]) && DisjointChains(act.chain, v.files[j]) && SameIn(v, v', j)
    {
      OtherFileUntouched(act.job, s0, s, act.n, v.files[j]);
    }
  }

  /** No call of the run names file `j`. */
  ghost predicate Untouched(acts: seq<Act>, j: nat)
  {
    forall k :: 0 <= k < |acts| ==> acts[k].Create? || acts[k].i != j
  }

  /**
   Over every run of creations, writes (with their allocations and extensions) and cuts, all chains stay
   acyclic, in range, closed and pairwise disjoint, and a file no call names keeps its bytes.
   */
  lemma {:induction false} RunSound(max: nat, size: nat, vs: seq<World>, acts: seq<Act>)
    requires |vs| == |acts| + 1 && Sound(max, size, vs[0])
    requires forall k :: 0 <= k < |acts| ==> Does(max, size, vs[k], acts[k], vs[k + 1])
    ensures Sound(max, size, vs[|acts|])
    ensures forall j: nat :: j < |vs[0].files| && Untouched(acts, j) ==> SameIn(vs[0], vs[|acts|], j)
  {
    hide Does, Sound, Content;
    if acts == [] {
      SameItself(max, size, vs[0]);
    } else {
      assert Does(max, size, vs[0], acts[0], vs[0 + 1]);
      ActSound(max, size, vs[0], acts[0], vs[1]);
      var vs', acts' := vs[1..], acts[1..];
      RunSound(max, size, vs', acts');
      forall j: nat | j < |vs[0].files| && Untouched(acts, j)
        ensures SameIn(vs[0], vs[|acts|], j)
      {
        assert acts[0].Create? || acts[0].i != j;
        assert Untouched(acts', j);
        assert SameIn(vs[0], vs'[0], j);
        assert SameIn(vs'[0], vs'[|acts'|], j);
      }
    }
  }

  lemma SameItself(max: nat, size: nat, w: World)
    requires Sound(max, size, w)
    ensures forall j: nat :: j < |w.files| ==> SameIn(w, w, j)
  {
  }
}
