/**
 Cluster chains over a FAT seen as a sequence of words: what a well-formed chain is, what allocating,
 linking and freeing do to all chains of a volume, and how the free-cluster count follows.
 */
module FatChains {
  import opened Bytes
  import opened FatTables

  predicate InRange(max: nat, c: nat) {
    2 <= c < max
  }

  predicate IsFree(fat: seq<nat>, c: nat)
    requires c < |fat|
  {
    Low28(fat[c]) == CLUSTER_FREE
  }

  ghost predicate Distinct(ch: seq<nat>)
  {
    forall i, j :: 0 <= i < j < |ch| ==> ch[i] != ch[j]
  }

  /** `ch` is a chain: in range, acyclic, linked entry by entry and closed by an end-of-chain mark. */
  ghost predicate IsChain(fat: seq<nat>, max: nat, ch: seq<nat>)
  {
    && 0 < |ch| && max <= |fat|
    && (forall i :: 0 <= i < |ch| ==> InRange(max, ch[i]))
    && Distinct(ch)
    && (forall i :: 0 <= i < |ch| - 1 ==> Low28(fat[ch[i]]) == ch[i + 1])
    && IsEof(fat[ch[|ch| - 1]])
  }

  /** A chain, or nothing for a file without clusters. */
  ghost predicate IsChainOrEmpty(fat: seq<nat>, max: nat, ch: seq<nat>)
  {
    ch == [] || IsChain(fat, max, ch)
  }

  lemma ChainUsed(fat: seq<nat>, max: nat, ch: seq<nat>)
    requires IsChain(fat, max, ch)
    ensures forall i :: 0 <= i < |ch| ==> !IsFree(fat, ch[i])
  {
    forall i | 0 <= i < |ch|
      ensures !IsFree(fat, ch[i])
    {
      if i < |ch| - 1 {
        assert InRange(max, ch[i + 1]);
      }
    }
  }

  lemma ChainNonEmpty(fat: seq<nat>, max: nat, ch: seq<nat>)
    requires IsChain(fat, max, ch)
    ensures ch != [] && max <= |fat| && forall i :: 0 <= i < |ch| ==> InRange(max, ch[i])
  {
  }

  lemma ChainDistinct(fat: seq<nat>, max: nat, ch: seq<nat>)
    requires IsChain(fat, max, ch)
    ensures Distinct(ch)
  {
  }

  lemma ChainFrame(fat: seq<nat>, fat': seq<nat>, max: nat, ch: seq<nat>)
    requires IsChain(fat, max, ch) && |fat'| == |fat|
    requires forall i :: 0 <= i < |ch| ==> fat'[ch[i]] == fat[ch[i]]
    ensures IsChain(fat', max, ch)
  {
  }

  /** Following a chain: the entry of each cluster names the next one, and the last entry is an end mark. */
  lemma ChainNext(fat: seq<nat>, max: nat, ch: seq<nat>, q: nat)
    requires IsChain(fat, max, ch) && q < |ch| && max <= CLUSTER_BAD
    ensures InRange(max, ch[q])
    ensures q + 1 < |ch| ==> Low28(fat[ch[q]]) == ch[q + 1] && InRange(max, ch[q + 1]) && !IsEof(ch[q + 1])
    ensures q + 1 == |ch| ==> IsEof(Low28(fat[ch[q]])) && !InRange(max, Low28(fat[ch[q]]))
  {
  }

  /** Its first cluster determines a chain. */
  lemma {:induction false} ChainUnique(fat: seq<nat>, max: nat, a: seq<nat>, b: seq<nat>, k: nat)
    requires IsChain(fat, max, a) && IsChain(fat, max, b) && a[0] == b[0]
    requires max <= CLUSTER_BAD && k < |a|
    ensures k < |b| && a[k] == b[k] && (k == |a| - 1 ==> |a| == |b|)
  {
    if k > 0 {
      ChainUnique(fat, max, a, b, k - 1);
      assert InRange(max, a[k]);
    }
    assert k < |b| - 1 ==> InRange(max, b[k + 1]);
  }

  /** Number of free entries in [lo, hi). */
  function FreeCount(fat: seq<nat>, lo: nat, hi: nat): (n: nat)
    requires hi <= |fat|
    ensures n <= if lo <= hi then hi - lo else 0
    decreases hi
  {
    if hi <= lo then 0
    else FreeCount(fat, lo, hi - 1) + if IsFree(fat, hi - 1) then 1 else 0
  }

  lemma {:induction false} FreeCountFrame(fat: seq<nat>, fat': seq<nat>, lo: nat, hi: nat)
    requires hi <= |fat| && hi <= |fat'|
    requires forall c :: lo <= c < hi ==> IsFree(fat, c) == IsFree(fat', c)
    ensures FreeCount(fat, lo, hi) == FreeCount(fat', lo, hi)
    decreases hi
  {
    if lo < hi {
      FreeCountFrame(fat, fat', lo, hi - 1);
    }
  }

  lemma {:induction false} FreeCountSplit(fat: seq<nat>, lo: nat, mid: nat, hi: nat)
    requires lo <= mid <= hi <= |fat|
    ensures FreeCount(fat, lo, hi) == FreeCount(fat, lo, mid) + FreeCount(fat, mid, hi)
    decreases hi
  {
    if mid < hi {
      FreeCountSplit(fat, lo, mid, hi - 1);
    }
  }

  lemma {:induction false} FreeCountZero(fat: seq<nat>, lo: nat, hi: nat)
    requires hi <= |fat|
    ensures FreeCount(fat, lo, hi) == 0 <==> forall c :: lo <= c < hi ==> !IsFree(fat, c)
    decreases hi
  {
    if lo < hi {
      FreeCountZero(fat, lo, hi - 1);
    }
  }

  lemma {:induction false} FreeCountGrows(fat: seq<nat>, fat': seq<nat>, lo: nat, hi: nat)
    requires hi <= |fat| && hi <= |fat'|
    requires forall c :: lo <= c < hi && IsFree(fat, c) ==> IsFree(fat', c)
    ensures FreeCount(fat, lo, hi) <= FreeCount(fat', lo, hi)
    decreases hi
  {
    if lo < hi {
      FreeCountGrows(fat, fat', lo, hi - 1);
    }
  }

  /** Changing whether one entry in the range is free changes the count by one. */
  lemma FreeCountPoint(fat: seq<nat>, fat': seq<nat>, lo: nat, hi: nat, c: nat)
    requires hi <= |fat| && |fat'| == |fat| && lo <= c < hi
    requires forall k :: lo <= k < hi && k != c ==> fat'[k] == fat[k]
    ensures FreeCount(fat', lo, hi) + (if IsFree(fat, c) then 1 else 0)
         == FreeCount(fat, lo, hi) + (if IsFree(fat', c) then 1 else 0)
  {
    FreeCountSplit(fat, lo, c, hi);
    FreeCountSplit(fat, c, c + 1, hi);
    FreeCountSplit(fat', lo, c, hi);
    FreeCountSplit(fat', c, c + 1, hi);
    FreeCountFrame(fat, fat', lo, c);
    FreeCountFrame(fat, fat', c + 1, hi);
    assert FreeCount(fat, c, c) == 0 == FreeCount(fat', c, c);
  }

  // ---------- allocation ----------

  /** The allocator starts at its hint, or at the first data cluster if the hint is below it. */
  function StartOf(hint: nat): nat {
    if hint < 2 then 2 else hint
  }

  /** `c` is the first free cluster met when counting up from `start`, wrapping after the last one. */
  ghost predicate FirstFreeFrom(fat: seq<nat>, max: nat, start: nat, c: nat)
  {
    && InRange(max, c) && max <= |fat| && IsFree(fat, c)
    && (if start <= c then forall k :: start <= k < c ==> !IsFree(fat, k)
        else (forall k :: start <= k < max ==> !IsFree(fat, k)) && forall k :: 2 <= k < c ==> !IsFree(fat, k))
  }

  lemma FirstFreeFacts(fat: seq<nat>, max: nat, start: nat, c: nat)
    requires FirstFreeFrom(fat, max, start, c)
    ensures InRange(max, c) && max <= |fat| && IsFree(fat, c)
  {
  }

  lemma StartTaken(fat: seq<nat>, max: nat, start: nat, c: nat)
    requires FirstFreeFrom(fat, max, start, c) && InRange(max, start) && IsFree(fat, start)
    ensures c == start
  {
  }

  function MarkedEof(fat: seq<nat>, c: nat): (r: seq<nat>)
    requires c < |fat|
    ensures |r| == |fat|
  {
    fat[c := MergeEntry(fat[c], CLUSTER_EOF)]
  }

  /** The cluster probed after `c`. */
  function NextProbe(max: nat, c: nat): nat {
    if c + 1 >= max then 2 else c + 1
  }

  function Probe(max: nat, start: nat, steps: nat): nat {
    if steps == 0 then start else NextProbe(max, Probe(max, start, steps - 1))
  }

  /**
   The search comes back to where it started, and so gives up on a full volume, exactly when it started
   on a data cluster. A hint one past the end, which allocating the last cluster leaves behind, is never
   met again.
   */
  lemma {:induction false} ProbeReturns(max: nat, start: nat)
    requires max > 2 && start >= 2
    ensures start < max <==> exists n: nat :: n > 0 && Probe(max, start, n) == start
  {
    if start < max {
      ProbeUp(max, start, max - 1 - start);
      ProbeWraps(max, start, start - 2);
      assert Probe(max, start, max - 2) == start;
    } else {
      forall n: nat | n > 0
        ensures Probe(max, start, n) != start
      {
        ProbeInRange(max, start, n);
      }
    }
  }

  /** The search has come `n` steps from `start`, over entries that are all in use. */
  ghost predicate Searched(fat: seq<nat>, max: nat, start: nat, n: nat)
  {
    && max > 2 && 2 <= start < |fat| && max <= |fat|
    && forall k: nat :: k < n ==> Probe(max, start, k) < |fat| && !IsFree(fat, Probe(max, start, k))
  }

  /** `c` is the first free entry the search meets. */
  ghost predicate Found(fat: seq<nat>, max: nat, start: nat, c: nat)
  {
    exists n: nat :: Searched(fat, max, start, n) && Probe(max, start, n) == c < |fat| && IsFree(fat, c)
  }

  /**
   From a used entry past the last data cluster of a full volume the search meets neither a free entry nor its
   start.
   */
  lemma SearchNeverEnds(fat: seq<nat>, max: nat, start: nat, n: nat)
    requires 2 < max <= start < |fat| && !IsFree(fat, start) && FreeCount(fat, 2, max) == 0
    ensures Probe(max, start, n) < |fat| && !IsFree(fat, Probe(max, start, n))
    ensures n > 0 ==> Probe(max, start, n) != start
  {
    FreeCountZero(fat, 2, max);
    if n > 0 {
      ProbeInRange(max, start, n);
    }
  }

  lemma SearchedNone(fat: seq<nat>, max: nat, start: nat)
    requires 2 < max <= |fat| && 2 <= start < |fat|
    ensures Searched(fat, max, start, 0)
  {
  }

  lemma FoundFacts(fat: seq<nat>, max: nat, start: nat, c: nat)
    requires Found(fat, max, start, c)
    ensures c < |fat| && IsFree(fat, c)
  {
  }

  lemma SearchedNext(fat: seq<nat>, max: nat, start: nat, n: nat)
    requires Searched(fat, max, start, n) && Probe(max, start, n) < |fat| && !IsFree(fat, Probe(max, start, n))
    ensures Searched(fat, max, start, n + 1)
  {
  }

  lemma {:induction false} ProbeUp(max: nat, start: nat, n: nat)
    requires 2 <= start && start + n < max
    ensures Probe(max, start, n) == start + n
  {
    if n > 0 {
      ProbeUp(max, start, n - 1);
    }
  }

  lemma {:induction false} ProbeWraps(max: nat, start: nat, n: nat)
    requires 2 <= start < max && n <= start - 2
    ensures Probe(max, start, max - start + n) == 2 + n
  {
    if n == 0 {
      ProbeUp(max, start, max - 1 - start);
    } else {
      ProbeWraps(max, start, n - 1);
    }
  }

  lemma {:induction false} ProbeInRange(max: nat, start: nat, n: nat)
    requires max > 2 && n > 0 && start >= max
    ensures 2 <= Probe(max, start, n) < max
  {
    if n > 1 {
      ProbeInRange(max, start, n - 1);
    }
  }

  /** An allocation comes back: with a data cluster, or with 0 on a full volume. */
  ghost predicate SearchOk(fat: seq<nat>, hint: nat, max: nat)
    requires 2 < max <= |fat|
  {
    var start := StartOf(hint);
    start < max || (start < |fat| && !IsFree(fat, start) && FreeCount(fat, 2, max) > 0)
  }

  /**
   `m` allocations in a row, each from the hint the one before left, all come back in that way: from a hint on the
   volume if the last data cluster is in use, or the free clusters from the hint to the end suffice, or the word after
   the last entry is in use and more clusters are free before the hint; from a hint past the end if the word there is
   in use and the volume has a free cluster, and enough of them unless the last data cluster is in use.
   */
  ghost predicate Room(fat: seq<nat>, hint: nat, max: nat, m: nat)
    requires 2 < max <= |fat|
  {
    var start, all := StartOf(hint), FreeCount(fat, 2, max);
    var ahead := FreeCount(fat, start, max);
    || m == 0
    || (start < max && (!IsFree(fat, max - 1) || m <= ahead || (max < |fat| && !IsFree(fat, max) && all > ahead)))
    || (max <= start < |fat| && !IsFree(fat, start) && all > 0 && (!IsFree(fat, max - 1) || m <= all))
  }

  /** What `Room` is about: every one of the `m` searches is one that comes back. */
  ghost predicate Allocates(fat: seq<nat>, hint: nat, max: nat, m: nat)
    requires 2 < max <= |fat|
    decreases m
  {
    || m == 0
    || (&& SearchOk(fat, hint, max)
        && forall c: nat :: FirstFreeFrom(fat, max, StartOf(hint), c) ==>
            Allocates(MarkedEof(fat, c), c + 1, max, m - 1))
  }

  lemma RoomStart(fat: seq<nat>, hint: nat, max: nat, m: nat)
    requires 2 < max <= |fat| && m > 0 && Room(fat, hint, max, m)
    ensures SearchOk(fat, hint, max)
  {
  }

  lemma RoomOne(fat: seq<nat>, hint: nat, max: nat)
    requires 2 < max <= |fat|
    ensures Room(fat, hint, max, 1) <==> SearchOk(fat, hint, max)
  {
    FreeCountZero(fat, StartOf(hint), max);
    FreeCountZero(fat, 2, max);
  }

  /** The free clusters from the hint to the end of the volume. */
  function Ahead(fat: seq<nat>, hint: nat, max: nat): nat
    requires max <= |fat|
  {
    FreeCount(fat, StartOf(hint), max)
  }

  /** Enough free clusters ahead of the hint are room. */
  lemma AheadIsRoom(fat: seq<nat>, hint: nat, max: nat, m: nat)
    requires 2 < max <= |fat| && m <= Ahead(fat, hint, max)
    ensures Room(fat, hint, max, m)
  {
  }

  /** An allocation uses up at most one of the clusters ahead. */
  lemma AheadStep(fat: seq<nat>, hint: nat, max: nat, c: nat)
    requires 2 < max <= |fat| && FirstFreeFrom(fat, max, StartOf(hint), c)
    ensures Ahead(MarkedEof(fat, c), c + 1, max) + 1 >= Ahead(fat, hint, max)
  {
    var start, fat' := StartOf(hint), MarkedEof(fat, c);
    if start <= c {
      FreeCountSplit(fat, start, c, max);
      FreeCountSplit(fat, c, c + 1, max);
      FreeCountZero(fat, start, c);
      FreeCountFrame(fat, fat', c + 1, max);
      assert FreeCount(fat, c, c + 1) == 1 by { assert FreeCount(fat, c, c) == 0; }
    } else {
      FreeCountZero(fat, start, max);
    }
  }

  lemma AheadGrows(fat: seq<nat>, fat': seq<nat>, hint: nat, max: nat)
    requires max <= |fat| && |fat'| == |fat|
    requires forall c :: 2 <= c < max && IsFree(fat, c) ==> IsFree(fat', c)
    ensures Ahead(fat, hint, max) <= Ahead(fat', hint, max)
  {
    FreeCountGrows(fat, fat', StartOf(hint), max);
  }

  /** The free counts after an allocation, ahead of the new hint and in all. */
  lemma CountsAfter(fat: seq<nat>, max: nat, start: nat, c: nat)
    requires 2 < max <= |fat| && start >= 2 && FirstFreeFrom(fat, max, start, c)
    ensures var fat' := MarkedEof(fat, c);
            && FreeCount(fat', 2, max) == FreeCount(fat, 2, max) - 1
            && FreeCount(fat', c + 1, max) == FreeCount(fat, c, max) - 1
            && (start <= c ==> FreeCount(fat, start, max) == FreeCount(fat, c, max))
            && (start > c ==> FreeCount(fat, start, max) == 0 && FreeCount(fat, 2, max) == FreeCount(fat, c, max))
            && (c == max - 1 ==> FreeCount(fat, c, max) == 1)
            && (IsFree(fat, max - 1) ==> FreeCount(fat, c, max) > 0)
            && !IsFree(fat', c) && forall k :: 0 <= k < |fat| && k != c ==> IsFree(fat', k) == IsFree(fat, k)
  {
    var fat' := MarkedEof(fat, c);
    FreeCountPoint(fat, fat', 2, max, c);
    FreeCountSplit(fat, c, c + 1, max);
    FreeCountFrame(fat, fat', c + 1, max);
    assert FreeCount(fat, c, c + 1) == 1 by { assert FreeCount(fat, c, c) == 0; }
    if start <= c {
      FreeCountSplit(fat, start, c, max);
      FreeCountZero(fat, start, c);
    } else {
      FreeCountZero(fat, start, max);
      FreeCountSplit(fat, 2, c, max);
      FreeCountZero(fat, 2, c);
    }
  }

  /** One allocation leaves room for one less, and only then was there room. */
  lemma RoomStep(fat: seq<nat>, hint: nat, max: nat, m: nat, c: nat)
    requires 2 < max <= |fat| && m > 0 && SearchOk(fat, hint, max) && FirstFreeFrom(fat, max, StartOf(hint), c)
    ensures Room(fat, hint, max, m) <==> Room(MarkedEof(fat, c), c + 1, max, m - 1)
  {
    hide FreeCount, MarkedEof;
    CountsAfter(fat, max, StartOf(hint), c);
    FreeCountPositive(fat, StartOf(hint), max);
  }

  lemma FreeCountPositive(fat: seq<nat>, lo: nat, max: nat)
    requires 2 < max <= |fat|
    ensures lo < max && IsFree(fat, max - 1) ==> FreeCount(fat, lo, max) > 0
  {
  }

  /** Redirecting an entry that is in use to a data cluster changes neither the room nor the free count. */
  lemma LinkKeepsFree(fat: seq<nat>, hint: nat, max: nat, m: nat, last: nat, c: nat)
    requires 2 < max <= |fat| && InRange(max, last) && InRange(max, c) && max <= CLUSTER_BAD && !IsFree(fat, last)
    ensures FreeCount(Linked(fat, last, c), 2, max) == FreeCount(fat, 2, max)
    ensures Ahead(Linked(fat, last, c), hint, max) == Ahead(fat, hint, max)
    ensures Room(fat, hint, max, m) ==> Room(Linked(fat, last, c), hint, max, m)
  {
    var fat' := Linked(fat, last, c);
    assert forall k :: 0 <= k < |fat| ==> IsFree(fat, k) == IsFree(fat', k);
    FreeCountFrame(fat, fat', 2, max);
    FreeCountFrame(fat, fat', StartOf(hint), max);
  }

  /** The condition is exact. */
  lemma {:induction false} RoomExact(fat: seq<nat>, hint: nat, max: nat, m: nat)
    requires 2 < max <= |fat|
    ensures Room(fat, hint, max, m) <==> Allocates(fat, hint, max, m)
    decreases m
  {
    hide Room, FirstFreeFrom, MarkedEof;
    if m == 0 {
      RoomNone(fat, hint, max);
    } else if !SearchOk(fat, hint, max) {
      if Room(fat, hint, max, m) {
        RoomStart(fat, hint, max, m);
      }
    } else if FreeCount(fat, 2, max) == 0 {
      RoomFull(fat, hint, max, m);
    } else {
      var first := FirstFree(fat, max, StartOf(hint));
      FirstFreeFacts(fat, max, StartOf(hint), first);
      RoomExact(MarkedEof(fat, first), first + 1, max, m - 1);
      RoomStep(fat, hint, max, m, first);
      forall c: nat | FirstFreeFrom(fat, max, StartOf(hint), c) ensures c == first {
        FirstFreeUnique(fat, max, StartOf(hint), c, first);
      }
    }
  }

  lemma RoomNone(fat: seq<nat>, hint: nat, max: nat)
    requires 2 < max <= |fat|
    ensures Room(fat, hint, max, 0)
  {
  }

  lemma RoomFull(fat: seq<nat>, hint: nat, max: nat, m: nat)
    requires 2 < max <= |fat| && m > 0 && SearchOk(fat, hint, max) && FreeCount(fat, 2, max) == 0
    ensures Room(fat, hint, max, m) && forall c: nat :: !FirstFreeFrom(fat, max, StartOf(hint), c)
  {
    FreeCountZero(fat, 2, max);
  }

  lemma FirstFreeUnique(fat: seq<nat>, max: nat, start: nat, c: nat, d: nat)
    requires FirstFreeFrom(fat, max, start, c) && FirstFreeFrom(fat, max, start, d) && start >= 2
    ensures c == d
  {
  }

  lemma FirstFree(fat: seq<nat>, max: nat, start: nat) returns (c: nat)
    requires 2 < max <= |fat| && 2 <= start && FreeCount(fat, 2, max) > 0
    ensures FirstFreeFrom(fat, max, start, c)
  {
    FreeCountZero(fat, 2, max);
    FreeCountZero(fat, start, max);
    if FreeCount(fat, start, max) > 0 {
      c := FreeUp(fat, max, start);
    } else {
      c := FreeUp(fat, max, 2);
    }
  }

  lemma FreeUp(fat: seq<nat>, max: nat, start: nat) returns (c: nat)
    requires max <= |fat| && exists k :: start <= k < max && IsFree(fat, k)
    ensures start <= c < max && IsFree(fat, c) && forall k :: start <= k < c ==> !IsFree(fat, k)
  {
    c := start;
    while !IsFree(fat, c)
      invariant start <= c < max
      invariant forall k :: start <= k < c ==> !IsFree(fat, k)
      decreases max - c
    {
      c := c + 1;
    }
  }

  // ---------- freeing ----------

  function Freed(fat: seq<nat>, c: nat): (r: seq<nat>)
    requires c < |fat|
  {
    fat[c := MergeEntry(fat[c], CLUSTER_FREE)]
  }

  /** `fat` with every cluster in `ws` marked free. */
  function FreedAll(fat: seq<nat>, ws: seq<nat>): (r: seq<nat>)
    ensures |r| == |fat|
  {
    seq(|fat|, c requires 0 <= c < |fat| => if c in ws then MergeEntry(fat[c], CLUSTER_FREE) else fat[c])
  }

  function UsedCount(fat: seq<nat>, max: nat): nat
    requires 2 <= max <= |fat|
  {
    max - 2 - FreeCount(fat, 2, max)
  }

  lemma FreedDrops(fat: seq<nat>, max: nat, c: nat)
    requires max <= |fat| && InRange(max, c)
    ensures UsedCount(Freed(fat, c), max) + (if IsFree(fat, c) then 0 else 1) == UsedCount(fat, max)
  {
    FreeCountPoint(fat, Freed(fat, c), 2, max, c);
  }

  /**
   The clusters `fat32_free_chain` visits, in order, on any table: it frees as it goes, so on a cycle it
   meets an entry it has freed itself and stops. The used entries, then the range test, bound the walk.
   */
  function Walk(fat: seq<nat>, max: nat, c: nat): (ws: seq<nat>)
    requires 2 <= max <= |fat|
    ensures forall i :: 0 <= i < |ws| ==> InRange(max, ws[i])
    decreases UsedCount(fat, max), InRange(max, c)
  {
    if !InRange(max, c) then []
    else if IsEof(Low28(fat[c])) then [c]
    else
      FreedDrops(fat, max, c);
      [c] + Walk(Freed(fat, c), max, Low28(fat[c]))
  }

  /** The walk ends on an entry that is already free when it gets there. */
  predicate RunsIntoFree(fat: seq<nat>, max: nat, c: nat)
    requires 2 <= max <= |fat|
    decreases UsedCount(fat, max), InRange(max, c)
  {
    InRange(max, c) && (IsFree(fat, c) ||
      (!IsEof(Low28(fat[c])) && (FreedDrops(fat, max, c); RunsIntoFree(Freed(fat, c), max, Low28(fat[c])))))
  }

  lemma WalkStep(fat: seq<nat>, max: nat, c: nat)
    requires 2 <= max <= |fat|
    ensures InRange(max, c) ==>
              Walk(fat, max, c) == [c] + if IsEof(Low28(fat[c])) then [] else Walk(Freed(fat, c), max, Low28(fat[c]))
    ensures !InRange(max, c) ==> Walk(fat, max, c) == []
  {
  }

  lemma FreedAllStep(fat: seq<nat>, c: nat, ws: seq<nat>)
    requires c < |fat|
    ensures FreedAll(fat, [c] + ws) == FreedAll(Freed(fat, c), ws)
  {
    forall k | 0 <= k < |fat|
      ensures FreedAll(fat, [c] + ws)[k] == FreedAll(Freed(fat, c), ws)[k]
    {
      assert k in [c] + ws <==> k == c || k in ws;
    }
  }

  lemma FreedAllAppend(fat: seq<nat>, ws: seq<nat>, c: nat)
    requires c < |fat|
    ensures FreedAll(fat, ws + [c]) == Freed(FreedAll(fat, ws), c)
  {
    forall k | 0 <= k < |fat|
      ensures FreedAll(fat, ws + [c])[k] == Freed(FreedAll(fat, ws), c)[k]
    {
      assert k in ws + [c] <==> k in ws || k == c;
    }
  }

  /**
   On every table, cyclic or damaged, the number of clusters visited is the number of clusters that
   became free, plus one exactly when the walk runs into a free entry.
   */
  lemma {:induction false} WalkCounts(fat: seq<nat>, max: nat, c: nat)
    requires 2 <= max <= |fat|
    ensures FreeCount(FreedAll(fat, Walk(fat, max, c)), 2, max) + (if RunsIntoFree(fat, max, c) then 1 else 0)
         == FreeCount(fat, 2, max) + |Walk(fat, max, c)|
    decreases UsedCount(fat, max), InRange(max, c)
  {
    if !InRange(max, c) {
      assert FreedAll(fat, []) == fat;
    } else {
      FreeCountPoint(fat, Freed(fat, c), 2, max, c);
      if IsEof(Low28(fat[c])) {
        assert FreedAll(fat, [c]) == Freed(fat, c);
      } else {
        FreedDrops(fat, max, c);
        FreedAllStep(fat, c, Walk(Freed(fat, c), max, Low28(fat[c])));
        WalkCounts(Freed(fat, c), max, Low28(fat[c]));
      }
    }
  }

  /** Adding the number of visited clusters keeps an exact count exact, unless the walk runs into a free entry. */
  lemma WalkKeepsCount(fat: seq<nat>, max: nat, c: nat)
    requires 2 <= max <= |fat| && max <= CLUSTER_BAD
    ensures (FreeCount(fat, 2, max) + |Walk(fat, max, c)|) % 0x1_0000_0000 ==
              FreeCount(FreedAll(fat, Walk(fat, max, c)), 2, max)
            <==> !RunsIntoFree(fat, max, c)
  {
    hide FreeCount, Walk, RunsIntoFree, FreedAll;
    WalkCounts(fat, max, c);
  }

  lemma FreedNone(fat: seq<nat>)
    ensures FreedAll(fat, []) == fat
  {
  }

  /** On a well-formed chain the walk is the chain, and it never runs into a free entry. */
  lemma {:induction false} WalkOfChain(fat: seq<nat>, max: nat, ch: seq<nat>)
    requires IsChain(fat, max, ch) && max <= CLUSTER_BAD
    ensures Walk(fat, max, ch[0]) == ch && !RunsIntoFree(fat, max, ch[0])
    decreases |ch|
  {
    var c, fat' := ch[0], Freed(fat, ch[0]);
    ChainUsed(fat, max, ch);
    if |ch| > 1 {
      FreedDrops(fat, max, c);
      assert InRange(max, ch[1]);
      assert IsChain(fat', max, ch[1..]) by {
        assert forall i :: 0 <= i < |ch| - 1 ==> ch[1..][i] == ch[i + 1];
      }
      WalkOfChain(fat', max, ch[1..]);
      assert ch == [c] + ch[1..];
    }
  }

  // ---------- growing ----------

  /**
   From `fat0` with file `ch0` to `fat1` with file `ch1`: the file is a chain that starts with its old
   clusters and goes on with clusters that were free, and no entry outside it changed.
   */
  ghost predicate Grown(fat0: seq<nat>, fat1: seq<nat>, max: nat, ch0: seq<nat>, ch1: seq<nat>)
  {
    && |fat0| == |fat1| && max <= |fat0|
    && IsChainOrEmpty(fat1, max, ch1)
    && ch0 <= ch1
    && (forall i :: |ch0| <= i < |ch1| ==> InRange(max, ch1[i]) && IsFree(fat0, ch1[i]))
    && (forall c :: 0 <= c < |fat0| && c !in ch1 ==> fat1[c] == fat0[c])
  }

  /** Appending a free cluster to a chain: mark it end-of-chain, then point the old last cluster at it. */
  function Linked(fat: seq<nat>, last: nat, c: nat): (r: seq<nat>)
    requires last < |fat|
  {
    fat[last := MergeEntry(fat[last], c)]
  }

  lemma GrownRefl(fat: seq<nat>, max: nat, ch: seq<nat>)
    requires IsChain(fat, max, ch)
    ensures Grown(fat, fat, max, ch, ch)
  {
  }

  lemma GrownChain(fat0: seq<nat>, fat1: seq<nat>, max: nat, ch0: seq<nat>, ch1: seq<nat>)
    requires Grown(fat0, fat1, max, ch0, ch1) && ch1 != []
    ensures IsChain(fat1, max, ch1)
  {
  }

  lemma GrownFirst(fat0: seq<nat>, max: nat, c: nat)
    requires max <= |fat0| && InRange(max, c) && IsFree(fat0, c)
    ensures Grown(fat0, MarkedEof(fat0, c), max, [], [c])
  {
  }

  lemma GrownStep(fat0: seq<nat>, fat1: seq<nat>, max: nat, ch0: seq<nat>, ch1: seq<nat>, c: nat)
    requires Grown(fat0, fat1, max, ch0, ch1) && ch1 != [] && max <= CLUSTER_BAD
    requires InRange(max, c) && IsFree(fat1, c)
    ensures Grown(fat0, Linked(MarkedEof(fat1, c), ch1[|ch1| - 1], c), max, ch0, ch1 + [c])
  {
    ChainUsed(fat1, max, ch1);
    var last := ch1[|ch1| - 1];
    assert c !in ch1;
    var fat2, ch2 := Linked(MarkedEof(fat1, c), last, c), ch1 + [c];
    assert Low28(fat2[last]) == c;
    assert Distinct(ch2);
    forall i | 0 <= i < |ch2| - 1
      ensures Low28(fat2[ch2[i]]) == ch2[i + 1]
    {
      if i < |ch1| - 1 {
        assert ch1[i] != last;
      }
    }
    assert IsChain(fat2, max, ch2);
    forall k | 0 <= k < |fat0| && k !in ch2
      ensures fat2[k] == fat0[k]
    {
      assert ch2[|ch1|] == c;
      assert forall i :: 0 <= i < |ch1| ==> ch2[i] == ch1[i];
    }
  }

  ghost predicate DisjointChains(a: seq<nat>, b: seq<nat>)
  {
    forall i, j :: 0 <= i < |a| && 0 <= j < |b| ==> a[i] != b[j]
  }

  /** Another file's chain survives growth untouched and stays apart from the grown file. */
  lemma GrownSpares(fat0: seq<nat>, fat1: seq<nat>, max: nat, ch0: seq<nat>, ch1: seq<nat>, other: seq<nat>)
    requires Grown(fat0, fat1, max, ch0, ch1) && IsChain(fat0, max, other) && DisjointChains(ch0, other)
    ensures IsChain(fat1, max, other) && DisjointChains(ch1, other)
  {
    ChainUsed(fat0, max, other);
    forall i, j | 0 <= i < |ch1| && 0 <= j < |other|
      ensures ch1[i] != other[j]
    {
      assert i < |ch0| ==> ch1[i] == ch0[i];
    }
    ChainFrame(fat0, fat1, max, other);
  }

  /** Closing a chain in the middle leaves two chains, apart from each other. */
  lemma SplitChain(fat: seq<nat>, max: nat, ch: seq<nat>, k: nat)
    requires IsChain(fat, max, ch) && 0 < k < |ch|
    ensures var fat' := Linked(fat, ch[k - 1], CLUSTER_EOF);
            IsChain(fat', max, ch[..k]) && IsChain(fat', max, ch[k..]) && DisjointChains(ch[k..], ch[..k])
  {
    var fat' := Linked(fat, ch[k - 1], CLUSTER_EOF);
    assert forall i :: 0 <= i < |ch| && i != k - 1 ==> fat'[ch[i]] == fat[ch[i]];
  }

  /** The table after the chain `ch` has been cut to its first `k` clusters and the rest freed. */
  function CutTable(fat: seq<nat>, ch: seq<nat>, k: nat): (r: seq<nat>)
    requires k <= |ch|
    ensures |r| == |fat|
  {
    FreedAll(if 0 < k < |ch| && ch[k - 1] < |fat| then Linked(fat, ch[k - 1], CLUSTER_EOF) else fat, ch[k..])
  }

  lemma FreedAt(fat: seq<nat>, ws: seq<nat>, c: nat)
    requires c < |fat|
    ensures FreedAll(fat, ws)[c] == if c in ws then MergeEntry(fat[c], CLUSTER_FREE) else fat[c]
    ensures c in ws || IsFree(fat, c) ==> IsFree(FreedAll(fat, ws), c)
  {
  }

  lemma TailOf(ch: seq<nat>, k: nat)
    requires k <= |ch|
    ensures forall c :: c in ch[k..] ==> c in ch
    ensures forall i :: k <= i < |ch| ==> ch[i] in ch[k..]
    ensures Distinct(ch) ==> forall i :: 0 <= i < k ==> ch[i] !in ch[k..]
  {
    forall i | k <= i < |ch| ensures ch[i] in ch[k..] {
      assert ch[k..][i - k] == ch[i];
    }
  }

  /** Cutting leaves the entries outside the chain alone, takes no free cluster, and frees the clusters cut off. */
  lemma CutEntries(fat: seq<nat>, max: nat, ch: seq<nat>, k: nat)
    requires IsChainOrEmpty(fat, max, ch) && k <= |ch|
    ensures var fat' := CutTable(fat, ch, k);
            && (forall c :: 0 <= c < |fat| && c !in ch ==> fat'[c] == fat[c])
            && (forall c :: 0 <= c < |fat| && IsFree(fat, c) ==> IsFree(fat', c))
            && (forall i :: k <= i < |ch| ==> ch[i] < |fat| && IsFree(fat', ch[i]))
  {
    hide IsChain, FreedAll, IsFree;
    if ch != [] {
      ChainNonEmpty(fat, max, ch);
      ChainUsed(fat, max, ch);
    }
    TailOf(ch, k);
    var closed := if 0 < k < |ch| && ch[k - 1] < |fat| then Linked(fat, ch[k - 1], CLUSTER_EOF) else fat;
    assert 0 < k < |ch| ==> ch[k - 1] in ch;
    forall c | 0 <= c < |fat|
      ensures c !in ch ==> CutTable(fat, ch, k)[c] == fat[c]
      ensures IsFree(fat, c) ==> IsFree(CutTable(fat, ch, k), c)
      ensures c in ch[k..] ==> IsFree(CutTable(fat, ch, k), c)
    {
      FreedAt(closed, ch[k..], c);
      if closed[c] == fat[c] {
        SameWord(fat, closed, c);
      }
    }
  }

  lemma SameWord(fat: seq<nat>, fat': seq<nat>, c: nat)
    requires c < |fat| && c < |fat'| && fat[c] == fat'[c]
    ensures IsFree(fat, c) == IsFree(fat', c)
  {
  }

  /** Cutting keeps the first part a chain. */
  lemma CutChain(fat: seq<nat>, max: nat, ch: seq<nat>, k: nat)
    requires IsChainOrEmpty(fat, max, ch) && k <= |ch|
    ensures IsChainOrEmpty(CutTable(fat, ch, k), max, ch[..k])
  {
    hide IsChain, FreedAll;
    if k == |ch| {
      assert ch[k..] == [] && ch[..k] == ch;
      FreedNone(fat);
    } else if k > 0 {
      ChainDistinct(fat, max, ch);
      ChainNonEmpty(fat, max, ch);
      TailOf(ch, k);
      SplitChain(fat, max, ch, k);
      var closed := Linked(fat, ch[k - 1], CLUSTER_EOF);
      forall i | 0 <= i < k ensures FreedAll(closed, ch[k..])[ch[..k][i]] == closed[ch[..k][i]] {
        FreedAt(closed, ch[k..], ch[i]);
      }
      ChainFrame(closed, FreedAll(closed, ch[k..]), max, ch[..k]);
    }
  }

  lemma CutKeeps(fat: seq<nat>, max: nat, ch: seq<nat>, k: nat)
    requires IsChainOrEmpty(fat, max, ch) && k <= |ch|
    ensures var fat' := CutTable(fat, ch, k);
            && IsChainOrEmpty(fat', max, ch[..k])
            && (forall c :: 0 <= c < |fat| && c !in ch ==> fat'[c] == fat[c])
            && (forall c :: 0 <= c < |fat| && IsFree(fat, c) ==> IsFree(fat', c))
            && (forall i :: k <= i < |ch| ==> ch[i] < |fat| && IsFree(fat', ch[i]))
  {
    hide CutTable, IsChain;
    CutEntries(fat, max, ch, k);
    CutChain(fat, max, ch, k);
  }

  // ---------- contents ----------

  /** Every data cluster holds `size` items: bytes, or directory records. */
  ghost predicate Uniform<T>(data: seq<seq<T>>, size: nat)
  {
    forall c :: 2 <= c < |data| ==> |data[c]| == size
  }

  ghost predicate Inside<T>(data: seq<seq<T>>, ch: seq<nat>)
  {
    forall i :: 0 <= i < |ch| ==> InRange(|data|, ch[i])
  }

  /** The items of a chain, cluster after cluster. */
  ghost function Content<T>(data: seq<seq<T>>, ch: seq<nat>): (items: seq<T>)
    requires Inside(data, ch)
  {
    if ch == [] then [] else Content(data, ch[..|ch| - 1]) + data[ch[|ch| - 1]]
  }

  lemma {:induction false} ContentLength<T>(data: seq<seq<T>>, ch: seq<nat>, size: nat)
    requires Inside(data, ch) && Uniform(data, size)
    ensures |Content(data, ch)| == |ch| * size
  {
    if ch != [] {
      ContentLength(data, ch[..|ch| - 1], size);
      assert |ch| * size == (|ch| - 1) * size + size;
    }
  }

  lemma {:induction false} ContentFrame<T>(data: seq<seq<T>>, data': seq<seq<T>>, ch: seq<nat>)
    requires Inside(data, ch) && Inside(data', ch)
    requires forall i :: 0 <= i < |ch| ==> data'[ch[i]] == data[ch[i]]
    ensures Content(data', ch) == Content(data, ch)
  {
    if ch != [] {
      ContentFrame(data, data', ch[..|ch| - 1]);
    }
  }

  lemma {:induction false} ContentAppend<T>(data: seq<seq<T>>, a: seq<nat>, b: seq<nat>)
    requires Inside(data, a) && Inside(data, b) && Inside(data, a + b)
    ensures Content(data, a + b) == Content(data, a) + Content(data, b)
  {
    if b == [] {
      assert a + b == a;
    } else {
      var n := |b| - 1;
      assert (a + b)[..|a| + n] == a + b[..n];
      ContentAppend(data, a, b[..n]);
    }
  }

  /** The content before, in and after the cluster number `q` of a chain. */
  lemma ContentAround<T>(data: seq<seq<T>>, ch: seq<nat>, q: nat)
    requires Inside(data, ch) && q < |ch|
    ensures Content(data, ch) == Content(data, ch[..q]) + data[ch[q]] + Content(data, ch[q + 1..])
  {
    hide Content;
    ContentOne(data, ch[q]);
    assert ch[..q] + [ch[q]] == ch[..q + 1] && ch[..q + 1] + ch[q + 1..] == ch;
    ContentAppend(data, ch[..q], [ch[q]]);
    ContentAppend(data, ch[..q + 1], ch[q + 1..]);
  }

  lemma ContentOne<T>(data: seq<seq<T>>, c: nat)
    requires 2 <= c < |data|
    ensures Inside(data, [c]) && Content(data, [c]) == data[c]
  {
    assert Content(data, [c]) == Content(data, [c][..0]) + data[c];
  }

  lemma MiddleOf<T>(a: seq<T>, b: seq<T>, c: seq<T>, b': seq<T>)
    requires |b| == |b'|
    ensures var s := a + b + c;
            s[|a|..|a| + |b|] == b && s[..|a|] + b' + s[|a| + |b|..] == a + b' + c
  {
  }

  /** The items of the cluster number `q` of a chain are one block of its content. */
  lemma ContentBlock<T>(data: seq<seq<T>>, ch: seq<nat>, size: nat, q: nat)
    requires Inside(data, ch) && Uniform(data, size) && q < |ch|
    ensures q * size + size <= |Content(data, ch)|
    ensures Content(data, ch)[q * size..q * size + size] == data[ch[q]]
  {
    hide Content;
    ContentAround(data, ch, q);
    ContentLength(data, ch[..q], size);
    MiddleOf(Content(data, ch[..q]), data[ch[q]], Content(data, ch[q + 1..]), data[ch[q]]);
  }

  /** The effect on the content of replacing one cluster of an acyclic chain. */
  lemma ContentPut<T>(data: seq<seq<T>>, ch: seq<nat>, size: nat, q: nat, block: seq<T>)
    requires Inside(data, ch) && Uniform(data, size) && Distinct(ch) && q < |ch| && |block| == size
    ensures var before, data' := Content(data, ch), data[ch[q] := block];
            && q * size + size <= |before|
            && Content(data', ch) == before[..q * size] + block + before[q * size + size..]
  {
    hide Content;
    var data' := data[ch[q] := block];
    ContentAround(data, ch, q);
    ContentAround(data', ch, q);
    ContentLength(data, ch[..q], size);
    ContentFrame(data, data', ch[..q]);
    ContentFrame(data, data', ch[q + 1..]);
    MiddleOf(Content(data, ch[..q]), data[ch[q]], Content(data, ch[q + 1..]), block);
  }
}
