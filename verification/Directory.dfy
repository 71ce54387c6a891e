/**
 Directory clusters as sequences of 32-byte records, and the name map they stand for: what lookup, creation
 in the first unused slot, and deletion do to that map.
 */
module Directory {
  import opened Bytes
  import opened ShortNames

  const DIRENT_END: Byte := 0
  const DIRENT_FREE: Byte := 0xE5

  type Record = s: seq<Byte> | |s| == 32 witness seq(32, _ => 0)

  function Packed(r: Record): seq<Byte> {
    r[..11]
  }

  function Attr(r: Record): Byte {
    r[11]
  }

  /** `fat32_entry_cluster`: high and low halves at offsets 0x14 and 0x1A. */
  function FirstCluster(r: Record): nat {
    (r[20] as int + 0x100 * r[21] as int) * 0x1_0000 + (r[26] as int + 0x100 * r[27] as int)
  }

  /** The record names cluster `c`: low half little-endian at bytes 26 and 27, high half at bytes 20 and 21. */
  predicate NamesCluster(r: Record, c: nat) {
    && r[26] == c % 256 && r[27] == c / 256 % 256
    && r[20] == c / 0x1_0000 % 256 && r[21] == c / 0x100_0000
  }

  /** Every record names one cluster, and it is the first cluster of its file. */
  lemma FirstClusterIs(r: Record, c: nat)
    ensures NamesCluster(r, c) <==> FirstCluster(r) == c
  {
    ByteOrder(r[26], r[27], r[20], r[21]);
    if NamesCluster(r, c) {
      FourBytes(c);
    }
  }

  lemma FourBytes(c: nat)
    ensures c == c % 256 + 256 * (c / 256 % 256) + 0x1_0000 * (c / 0x1_0000 % 256) + 0x100_0000 * (c / 0x100_0000)
  {
    assert c / 0x1_0000 == c / 256 / 256 && c / 0x100_0000 == c / 256 / 256 / 256;
  }

  /** `fat32_entry_set_cluster`: the four bytes take the cluster, and no other byte changes. */
  function WithCluster(r: Record, c: nat): (r': Record)
    requires c < 0x1_0000_0000
    ensures NamesCluster(r', c) && FirstCluster(r') == c
    ensures forall i :: 0 <= i < 32 && i != 20 && i != 21 && i != 26 && i != 27 ==> r'[i] == r[i]
  {
    var high, low := c / 0x1_0000, c % 0x1_0000;
    var r' := r[20 := high % 256][21 := high / 256][26 := low % 256][27 := low / 256];
    HalvesOf(c);
    FirstClusterIs(r', c);
    r'
  }

  lemma HalvesOf(c: nat)
    requires c < 0x1_0000_0000
    ensures c % 0x1_0000 % 256 == c % 256 && c % 0x1_0000 / 256 == c / 256 % 256
    ensures c / 0x1_0000 / 256 == c / 0x100_0000 < 256
  {
    var high, low := c / 0x1_0000, c % 0x1_0000;
    DivModUnique(c, 256 * high + low / 256, low % 256, 256);
    DivModUnique(256 * high + low / 256, high, low / 256, 256);
    DivModUnique(c, high / 256, high % 256 * 0x1_0000 + low, 0x100_0000);
  }

  /** The attribute bits, lowest first: a long-name piece has the four low ones set and the next two clear. */
  lemma AttributeBits(r: Record, b: seq<bool>)
    requires |b| == 8
    requires Attr(r) == (if b[0] then 1 else 0) + (if b[1] then 2 else 0) + (if b[2] then 4 else 0)
                        + (if b[3] then 8 else 0) + (if b[4] then 16 else 0) + (if b[5] then 32 else 0)
                        + (if b[6] then 64 else 0) + (if b[7] then 128 else 0)
    ensures r[11] == Attr(r)
    ensures IsVolumeLabel(r) <==> b[3]
    ensures IsLongName(r) <==> b[0] && b[1] && b[2] && b[3] && !b[4] && !b[5]
  {
  }

  /** Long-name pieces carry exactly the four low attribute bits. */
  predicate IsLongName(r: Record) {
    Attr(r) % 64 == 15
  }

  predicate IsVolumeLabel(r: Record) {
    Attr(r) / 8 % 2 == 1
  }

  /** The records a search looks at: lookups skip volume labels, deletions do not (`labels`). */
  predicate Candidate(r: Record, labels: bool) {
    r[0] != DIRENT_FREE && !IsLongName(r) && (labels || !IsVolumeLabel(r))
  }

  predicate Listed(r: Record) {
    Candidate(r, false)
  }

  predicate Matches(name: seq<Byte>, r: Record) {
    Upper(name) == Key(Packed(r))
  }

  predicate Hit(name: seq<Byte>, labels: bool, r: Record) {
    Candidate(r, labels) && Matches(name, r)
  }

  /** The name a record shows. */
  function Shown(r: Record): seq<Byte> {
    CString(Format(Packed(r)))
  }

  /** Record `k` is in use, is no long-name piece (and no label unless `labels`), and shows this name in some case. */
  ghost predicate Shows(recs: seq<Record>, name: seq<Byte>, labels: bool, k: nat)
  {
    && k < |recs| && (forall i :: 0 <= i <= k ==> recs[i][0] != 0)
    && recs[k][0] != 0xE5 && !IsLongName(recs[k]) && (labels || !IsVolumeLabel(recs[k]))
    && SameLetters(name, Shown(recs[k]))
  }

  /** The first candidate with this name before the end mark, from slot `k` on. */
  function Find(recs: seq<Record>, name: seq<Byte>, labels: bool, k: nat): (slot: Option<nat>)
    ensures slot.Some? ==> k <= slot.value < |recs| && Hit(name, labels, recs[slot.value])
    ensures slot.Some? ==> forall i :: k <= i <= slot.value ==> recs[i][0] != DIRENT_END
    decreases |recs| - k
  {
    hide Hit;
    if k >= |recs| || recs[k][0] == DIRENT_END then None
    else if Hit(name, labels, recs[k]) then Some(k)
    else Find(recs, name, labels, k + 1)
  }

  /** A stretch without end marks and without hits can be skipped. */
  lemma {:induction false} FindSkips(recs: seq<Record>, name: seq<Byte>, labels: bool, k: nat, k': nat)
    requires k <= k' <= |recs|
    requires forall i :: k <= i < k' ==> recs[i][0] != DIRENT_END && !Hit(name, labels, recs[i])
    ensures Find(recs, name, labels, k) == Find(recs, name, labels, k')
    decreases k' - k
  {
    if k < k' {
      FindSkips(recs, name, labels, k + 1, k');
    }
  }

  /** A search finds the first record that shows the name, and nothing exactly when none does. */
  lemma FindExact(recs: seq<Record>, name: seq<Byte>, labels: bool)
    ensures match Find(recs, name, labels, 0)
            case None => forall k: nat :: !Shows(recs, name, labels, k)
            case Some(k) => Shows(recs, name, labels, k) && forall j: nat :: j < k ==> !Shows(recs, name, labels, j)
  {
    hide Upper, Format, CString, SameLetters, IsLongName, IsVolumeLabel;
    forall k: nat | k < |recs|
      ensures Shows(recs, name, labels, k) <==>
                (forall i :: 0 <= i <= k ==> recs[i][0] != 0) && Hit(name, labels, recs[k])
    {
      UpperSame(name, Shown(recs[k]));
    }
    FindFirst(recs, name, labels, 0);
  }

  lemma {:induction false} FindFirst(recs: seq<Record>, name: seq<Byte>, labels: bool, k: nat)
    ensures match Find(recs, name, labels, k)
            case None =>
              forall j :: k <= j < |recs| && (forall i :: k <= i <= j ==> recs[i][0] != 0) ==>
                  !Hit(name, labels, recs[j])
            case Some(n) => forall j :: k <= j < n ==> !Hit(name, labels, recs[j])
    decreases |recs| - k
  {
    hide Hit;
    if k < |recs| && recs[k][0] != DIRENT_END && !Hit(name, labels, recs[k]) {
      FindFirst(recs, name, labels, k + 1);
    }
  }

  /** Letter case does not matter to a search. */
  lemma FindAnyCase(recs: seq<Record>, name: seq<Byte>, other: seq<Byte>, labels: bool, k: nat)
    requires SameLetters(name, other)
    ensures Find(recs, name, labels, k) == Find(recs, other, labels, k)
    decreases |recs| - k
  {
    hide Upper, Key, SameLetters;
    UpperSame(name, other);
    if k < |recs| {
      FindAnyCase(recs, name, other, labels, k + 1);
    }
  }

  predicate Unused(r: Record) {
    r[0] == DIRENT_END || r[0] == DIRENT_FREE
  }

  /** The slot a new entry goes to: the first unused one, or the end of the directory. */
  function FirstUnused(recs: seq<Record>, k: nat): (slot: nat)
    requires k <= |recs|
    ensures k <= slot <= |recs|
    ensures forall i :: k <= i < slot ==> !Unused(recs[i])
    ensures slot < |recs| ==> Unused(recs[slot])
    decreases |recs| - k
  {
    if k == |recs| || Unused(recs[k]) then k else FirstUnused(recs, k + 1)
  }

  lemma {:induction false} FirstUnusedSkips(recs: seq<Record>, k: nat, k': nat)
    requires k <= k' <= |recs|
    requires forall i :: k <= i < k' ==> !Unused(recs[i])
    ensures FirstUnused(recs, k) == FirstUnused(recs, k')
    decreases k' - k
  {
    if k < k' {
      FirstUnusedSkips(recs, k + 1, k');
    }
  }

  /** Nothing but end marks after the first end mark. */
  ghost predicate TailIsEnd(recs: seq<Record>)
  {
    forall i, j :: 0 <= i < j < |recs| && recs[i][0] == DIRENT_END ==> recs[j][0] == DIRENT_END
  }

  /** The first `k` records are neither erased nor end marks. */
  ghost predicate Taken(recs: seq<Record>, k: nat)
    requires k <= |recs|
  {
    forall i :: 0 <= i < k ==> recs[i][0] != 0xE5 && recs[i][0] != 0
  }

  /** A new record takes the first free slot, and a full directory grows by the record and blank ones. */
  lemma CreatedWhere(recs: seq<Record>, r: Record, n: nat, k: nat)
    requires n > 0 && k <= |recs| && Taken(recs, k)
    ensures k < |recs| && (recs[k][0] == 0xE5 || recs[k][0] == 0) ==> Created(recs, r, n) == recs[k := r]
    ensures k == |recs| ==>
              var recs' := Created(recs, r, n);
              && |recs'| == k + n && recs'[..k] == recs && recs'[k] == r
              && forall i, j :: k < i < k + n && 0 <= j < 32 ==> recs'[i][j] == 0
  {
    FirstUnusedSkips(recs, 0, k);
  }

  /** The entry `fat32_create_entry` writes for a plain file. */
  function NewRecord(name: seq<Byte>, attr: Byte): (r: Record)
    ensures Packed(r) == Encode(name) && Attr(r) == attr && FirstCluster(r) == 0
  {
    var r := Encode(name) + [attr] + seq(20, _ => 0);
    assert r[..11] == Encode(name);
    r
  }

  /** The directory after a creation: the slot is overwritten, or a cluster of `n` records is added. */
  function Created(recs: seq<Record>, r: Record, n: nat): (recs': seq<Record>)
    requires n > 0
  {
    var k := FirstUnused(recs, 0);
    if k < |recs| then recs[k := r] else recs + [r] + seq(n - 1, _ => seq(32, _ => 0))
  }

  function Erased(r: Record): Record {
    r[0 := DIRENT_FREE]
  }

  // ---------- the name map ----------

  /** The names a lookup can find, each with the record it finds. */
  function NameMap(recs: seq<Record>): map<seq<Byte>, Record>
  {
    if recs == [] || recs[0][0] == DIRENT_END then map[]
    else
      var rest := NameMap(recs[1..]);
      if Listed(recs[0]) then rest[Key(Packed(recs[0])) := recs[0]] else rest
  }

  /** No two records before the end mark are listed under one name. */
  predicate NoDuplicates(recs: seq<Record>)
  {
    || recs == [] || recs[0][0] == DIRENT_END
    || (NoDuplicates(recs[1..]) && (Listed(recs[0]) ==> Key(Packed(recs[0])) !in NameMap(recs[1..])))
  }

  lemma {:induction false} FindShift(recs: seq<Record>, name: seq<Byte>, k: nat)
    requires 0 < |recs|
    ensures Find(recs, name, false, k + 1) ==
              match Find(recs[1..], name, false, k) case None => None case Some(i) => Some(i + 1)
    decreases |recs| - k
  {
    hide Hit;
    if k + 1 < |recs| {
      assert recs[1..][k] == recs[k + 1];
      FindShift(recs, name, k + 1);
    }
  }

  /** Lookup is the map: it finds a record exactly under the map's names, and finds the map's record. */
  lemma {:induction false} FindIsMapLookup(recs: seq<Record>, name: seq<Byte>)
    ensures match Find(recs, name, false, 0)
            case None => Upper(name) !in NameMap(recs)
            case Some(k) => Upper(name) in NameMap(recs) && NameMap(recs)[Upper(name)] == recs[k]
  {
    if recs != [] && recs[0][0] != DIRENT_END {
      FindShift(recs, name, 0);
      FindIsMapLookup(recs[1..], name);
    }
  }

  lemma {:induction false} FirstUnusedShift(recs: seq<Record>, k: nat)
    requires k < |recs|
    ensures FirstUnused(recs, k + 1) == FirstUnused(recs[1..], k) + 1
    decreases |recs| - k
  {
    if k + 1 < |recs| {
      assert recs[1..][k] == recs[k + 1];
      if !Unused(recs[k + 1]) {
        FirstUnusedShift(recs, k + 1);
      }
    }
  }

  lemma CreatedShift(recs: seq<Record>, r: Record, n: nat)
    requires n > 0 && recs != [] && !Unused(recs[0])
    ensures Created(recs, r, n) == [recs[0]] + Created(recs[1..], r, n)
  {
    FirstUnusedShift(recs, 0);
    var k := FirstUnused(recs[1..], 0);
    if k < |recs| - 1 {
      assert recs[k + 1 := r] == [recs[0]] + recs[1..][k := r];
    } else {
      assert recs == [recs[0]] + recs[1..];
    }
  }

  /** The map of a directory from its first record and the rest. */
  lemma MapOf(r: Record, rest: seq<Record>)
    ensures NameMap([r] + rest) ==
            if r[0] == DIRENT_END then map[] else if Listed(r) then NameMap(rest)[Key(Packed(r)) := r]
            else NameMap(rest)
    ensures NoDuplicates([r] + rest) <==>
            r[0] == DIRENT_END || (NoDuplicates(rest) && (Listed(r) ==> Key(Packed(r)) !in NameMap(rest)))
  {
    hide Key, Listed;
    assert ([r] + rest)[1..] == rest;
  }

  lemma BlankMap(n: nat)
    ensures NameMap(seq(n, _ => seq(32, _ => 0))) == map[] && NoDuplicates(seq(n, _ => seq(32, _ => 0)))
  {
  }

  /** The directory after a creation, from its first record on. */
  lemma CreatedFrom(recs: seq<Record>, r: Record, n: nat)
    requires n > 0
    ensures recs == [] ==> Created(recs, r, n) == [r] + seq(n - 1, _ => seq(32, _ => 0))
    ensures recs != [] && Unused(recs[0]) ==> Created(recs, r, n) == [r] + recs[1..]
    ensures recs != [] && !Unused(recs[0]) ==> Created(recs, r, n) == [recs[0]] + Created(recs[1..], r, n)
  {
    hide FirstUnused;
    if recs != [] && !Unused(recs[0]) {
      CreatedShift(recs, r, n);
    } else if recs != [] {
      FirstUnusedNow(recs);
    }
  }

  lemma FirstUnusedNow(recs: seq<Record>)
    requires recs != [] && Unused(recs[0])
    ensures FirstUnused(recs, 0) == 0
  {
  }

  /** Nothing is listed after an end mark. */
  lemma EndedMap(recs: seq<Record>)
    requires TailIsEnd(recs) && recs != [] && recs[0][0] == DIRENT_END
    ensures NameMap(recs) == map[] && NameMap(recs[1..]) == map[] && NoDuplicates(recs[1..])
  {
    if |recs| > 1 {
      assert recs[1..][0] == recs[1];
    }
  }

  lemma InsertEmpty(r: Record, n: nat)
    requires n > 0 && Listed(r) && r[0] != DIRENT_END
    ensures NameMap(Created([], r, n)) == NameMap([])[Key(Packed(r)) := r] && NoDuplicates(Created([], r, n))
  {
    hide Key, Created, Listed, NoDuplicates, NameMap;
    CreatedFrom([], r, n);
    BlankMap(n - 1);
    EmptyMap();
    MapOf(r, seq(n - 1, _ => seq(32, _ => 0)));
  }

  lemma EmptyMap()
    ensures NameMap([]) == map[]
  {
  }

  lemma InsertUnused(recs: seq<Record>, r: Record, n: nat)
    requires n > 0 && TailIsEnd(recs) && NoDuplicates(recs) && recs != [] && Unused(recs[0])
    requires Listed(r) && r[0] != DIRENT_END && Key(Packed(r)) !in NameMap(recs)
    ensures NameMap(Created(recs, r, n)) == NameMap(recs)[Key(Packed(r)) := r] && NoDuplicates(Created(recs, r, n))
  {
    hide Key, Created, NameMap, NoDuplicates, Listed, TailIsEnd;
    CreatedFrom(recs, r, n);
    var first, rest := recs[0], recs[1..];
    assert recs == [first] + rest;
    MapOf(first, rest);
    MapOf(r, rest);
    if first[0] == DIRENT_END {
      EndedMap(recs);
    } else {
      NotListed(first);
    }
  }

  lemma InsertLater(recs: seq<Record>, r: Record, n: nat)
    requires n > 0 && NoDuplicates(recs) && recs != [] && !Unused(recs[0])
    requires Listed(r) && Key(Packed(r)) !in NameMap(recs)
    requires NameMap(Created(recs[1..], r, n)) == NameMap(recs[1..])[Key(Packed(r)) := r]
    requires NoDuplicates(Created(recs[1..], r, n))
    ensures NameMap(Created(recs, r, n)) == NameMap(recs)[Key(Packed(r)) := r] && NoDuplicates(Created(recs, r, n))
  {
    hide Key, Created, NameMap, NoDuplicates, Listed;
    CreatedFrom(recs, r, n);
    var first, rest := recs[0], recs[1..];
    assert recs == [first] + rest;
    MapOf(first, rest);
    MapOf(first, Created(rest, r, n));
  }

  lemma NameOfRest(recs: seq<Record>, key: seq<Byte>)
    requires recs != [] && !Unused(recs[0]) && NoDuplicates(recs) && key !in NameMap(recs)
    ensures key !in NameMap(recs[1..]) && NoDuplicates(recs[1..])
  {
  }

  /** Creating a record under a new name adds that name to the map and changes nothing else in it. */
  lemma {:induction false} CreateInserts(recs: seq<Record>, r: Record, n: nat)
    requires n > 0 && TailIsEnd(recs) && NoDuplicates(recs)
    requires Listed(r) && r[0] != DIRENT_END && Key(Packed(r)) !in NameMap(recs)
    ensures var recs' := Created(recs, r, n);
            && NameMap(recs') == NameMap(recs)[Key(Packed(r)) := r]
            && NoDuplicates(recs') && TailIsEnd(recs')
  {
    hide Key, Created, NameMap, NoDuplicates, Listed, TailIsEnd;
    CreatedTail(recs, r, n);
    if recs == [] {
      InsertEmpty(r, n);
    } else if Unused(recs[0]) {
      InsertUnused(recs, r, n);
    } else {
      TailOfTail(recs);
      NameOfRest(recs, Key(Packed(r)));
      CreateInserts(recs[1..], r, n);
      InsertLater(recs, r, n);
    }
  }

  lemma NotListed(r: Record)
    requires r[0] == DIRENT_FREE
    ensures !Listed(r)
  {
  }

  lemma TailOfTail(recs: seq<Record>)
    requires TailIsEnd(recs) && recs != []
    ensures TailIsEnd(recs[1..])
  {
  }

  lemma CreatedTail(recs: seq<Record>, r: Record, n: nat)
    requires n > 0 && TailIsEnd(recs) && r[0] != DIRENT_END
    ensures TailIsEnd(Created(recs, r, n))
  {
    hide FirstUnused;
    var k := FirstUnused(recs, 0);
    assert forall i :: 0 <= i < k ==> !Unused(recs[i]);
  }

  /** Erasing a listed record removes its name from the map; erasing any other record leaves the map alone. */
  lemma {:induction false} EraseRemoves(recs: seq<Record>, k: nat)
    requires k < |recs| && NoDuplicates(recs) && forall i :: 0 <= i <= k ==> recs[i][0] != DIRENT_END
    ensures var recs' := recs[k := Erased(recs[k])];
            && NameMap(recs') == (if Listed(recs[k]) then NameMap(recs) - {Key(Packed(recs[k]))} else NameMap(recs))
            && NoDuplicates(recs')
  {
    hide Key;
    var recs' := recs[k := Erased(recs[k])];
    if k == 0 {
      assert recs'[1..] == recs[1..];
    } else {
      assert recs'[1..] == recs[1..][k - 1 := Erased(recs[1..][k - 1])];
      EraseRemoves(recs[1..], k - 1);
      if Listed(recs[k]) {
        ListedInMap(recs[1..], k - 1);
      }
    }
  }

  lemma {:induction false} ListedInMap(recs: seq<Record>, k: nat)
    requires k < |recs| && Listed(recs[k]) && forall i :: 0 <= i <= k ==> recs[i][0] != DIRENT_END
    ensures Key(Packed(recs[k])) in NameMap(recs)
  {
    hide Key;
    if k > 0 {
      ListedInMap(recs[1..], k - 1);
    }
  }

  lemma EraseTail(recs: seq<Record>, k: nat)
    requires k < |recs| && TailIsEnd(recs) && recs[k][0] != DIRENT_END
    ensures TailIsEnd(recs[k := Erased(recs[k])])
  {
  }

  /**
   A deletion hits the record a lookup finds exactly when it does not hit a volume label: labels are
   skipped by lookups but not by deletions.
   */
  lemma {:induction false} DeleteAgreesWithFind(recs: seq<Record>, name: seq<Byte>, k: nat)
    ensures Find(recs, name, true, k) == Find(recs, name, false, k) <==>
            Find(recs, name, true, k).None? || !IsVolumeLabel(recs[Find(recs, name, true, k).value])
    decreases |recs| - k
  {
    hide Matches;
    if k < |recs| {
      DeleteAgreesWithFind(recs, name, k + 1);
    }
  }

  /** A label in front of a file of the same name: the deletion erases the label and the file is still found. */
  lemma LabelShadowsFile(name: seq<Byte>)
    requires Representable(name)
    ensures var recs := [NewRecord(name, 0x08), NewRecord(name, 0x20)];
            Find(recs, name, false, 0) == Some(1) && Find(recs, name, true, 0) == Some(0)
            && Find(recs[0 := Erased(recs[0])], name, false, 0) == Some(1)
  {
    hide NewRecord, Key, Encode, Upper, Representable;
    KeyOfEncoded(name);
    LegalNotZero(Encode(name), name);
    var mark, file := NewRecord(name, 0x08), NewRecord(name, 0x20);
    var recs := [mark, file];
    assert Find(recs, name, false, 0) == Find(recs, name, false, 1) == Some(1);
    var recs' := recs[0 := Erased(mark)];
    assert Find(recs', name, false, 0) == Find(recs', name, false, 1) == Some(1);
  }

  /** Creating a plain file: whatever its letter case, its name is found, and found at the new record. */
  lemma CreateThenFind(recs: seq<Record>, name: seq<Byte>, attr: Byte, n: nat)
    requires n > 0 && TailIsEnd(recs) && NoDuplicates(recs) && Representable(name)
    requires Find(recs, name, false, 0) == None && attr / 8 % 2 == 0
    ensures var r := NewRecord(name, attr);
            && NameMap(Created(recs, r, n)) == NameMap(recs)[Upper(name) := r]
            && NoDuplicates(Created(recs, r, n)) && TailIsEnd(Created(recs, r, n))
  {
    hide NewRecord, Key, Encode, Upper, Created, NameMap, NoDuplicates, TailIsEnd, Find;
    var r := NewRecord(name, attr);
    KeyOfEncoded(name);
    LegalNotZero(Encode(name), name);
    assert r[0] == Packed(r)[0];
    FindIsMapLookup(recs, name);
    CreateInserts(recs, r, n);
  }

  /** A file created under a name is found under that name in any letter case. */
  lemma CreateThenFindAnyCase(recs: seq<Record>, name: seq<Byte>, other: seq<Byte>, attr: Byte, n: nat)
    requires n > 0 && TailIsEnd(recs) && NoDuplicates(recs) && Representable(name) && SameLetters(name, other)
    requires Find(recs, name, false, 0) == None && attr / 8 % 2 == 0
    ensures var recs' := Created(recs, NewRecord(name, attr), n);
            && Find(recs', other, false, 0).Some?
            && recs'[Find(recs', other, false, 0).value] == NewRecord(name, attr)
  {
    hide Find, NameMap, NoDuplicates, Upper, Created, NewRecord, Representable, TailIsEnd;
    var recs' := Created(recs, NewRecord(name, attr), n);
    CreateThenFind(recs, name, attr, n);
    UpperSame(name, other);
    FindIsMapLookup(recs', other);
  }

  /** The bytes of a new record, and of an erased one. */
  lemma RecordBytes(name: seq<Byte>, attr: Byte, r: Record)
    ensures var made := NewRecord(name, attr);
            && made[..11] == Encode(name) && made[11] == attr && forall i :: 12 <= i < 32 ==> made[i] == 0
    ensures Erased(r)[0] == 0xE5 && Erased(r)[1..] == r[1..]
  {
    hide Encode;
  }

  /**
   Deleting a name removes it and no other, exactly when the record hit is not a volume label (or the name
   was not there to be removed).
   */
  lemma DeleteThenFind(recs: seq<Record>, name: seq<Byte>)
    requires TailIsEnd(recs) && NoDuplicates(recs) && Find(recs, name, true, 0).Some?
    ensures var k := Find(recs, name, true, 0).value;
            var recs' := recs[k := Erased(recs[k])];
            && NoDuplicates(recs') && TailIsEnd(recs')
            && (NameMap(recs') == NameMap(recs) - {Upper(name)} <==>
                !IsVolumeLabel(recs[k]) || Upper(name) !in NameMap(recs))
            && (IsVolumeLabel(recs[k]) ==> NameMap(recs') == NameMap(recs))
  {
    hide Find, NameMap, NoDuplicates, Key, Upper;
    var k := Find(recs, name, true, 0).value;
    assert Hit(name, true, recs[k]);
    EraseRemoves(recs, k);
    EraseTail(recs, k);
  }

  /** A search splits at any slot that no end mark precedes. */
  lemma {:induction false} FindInPrefix(recs: seq<Record>, name: seq<Byte>, k: nat, j: nat)
    requires j <= k <= |recs| && forall i :: 0 <= i < k ==> recs[i][0] != DIRENT_END
    ensures Find(recs, name, true, j) ==
            if Find(recs[..k], name, true, j).Some? then Find(recs[..k], name, true, j) else Find(recs, name, true, k)
    decreases k - j
  {
    hide Hit;
    if j < k {
      FindInPrefix(recs, name, k, j + 1);
    }
  }

  /** Before the slot a creation takes, the directory is as it was. */
  lemma CreatedPrefix(recs: seq<Record>, r: Record, n: nat)
    requires n > 0
    ensures var k, recs' := FirstUnused(recs, 0), Created(recs, r, n);
            && k < |recs'| && recs'[k] == r && recs'[..k] == recs[..k]
            && forall i :: 0 <= i < k ==> recs'[i] == recs[i] && recs[i][0] != DIRENT_END
  {
    hide FirstUnused;
    var k := FirstUnused(recs, 0);
    assert forall i :: 0 <= i < k ==> !Unused(recs[i]);
  }

  /**
   Creating a file and deleting it again gives the name map back exactly when no volume label of that name
   lies before the slot the file went to.
   */
  lemma CreateThenDelete(recs: seq<Record>, name: seq<Byte>, attr: Byte, n: nat)
    requires n > 0 && TailIsEnd(recs) && NoDuplicates(recs) && Representable(name)
    requires Find(recs, name, false, 0) == None && attr / 8 % 2 == 0
    ensures var recs' := Created(recs, NewRecord(name, attr), n);
            && Find(recs', name, true, 0).Some?
            && var k := Find(recs', name, true, 0).value;
               NameMap(recs'[k := Erased(recs'[k])]) == NameMap(recs) <==>
               Find(recs[..FirstUnused(recs, 0)], name, true, 0) == None
  {
    hide Find, NameMap, NoDuplicates, Key, Upper, Created, NewRecord, Representable, FirstUnused, TailIsEnd;
    var r, k0 := NewRecord(name, attr), FirstUnused(recs, 0);
    var recs' := Created(recs, r, n);
    CreatedPrefix(recs, r, n);
    FindIsMapLookup(recs, name);
    CreateThenFind(recs, name, attr, n);
    HitsNew(name, attr, recs', k0);
    FindInPrefix(recs', name, k0, 0);
    FindInPrefix(recs, name, k0, 0);
    DeleteAgreesWithFind(recs, name, 0);
    DeleteThenFind(recs', name);
  }

  lemma HitsNew(name: seq<Byte>, attr: Byte, recs: seq<Record>, k: nat)
    requires Representable(name) && attr / 8 % 2 == 0 && k < |recs| && recs[k] == NewRecord(name, attr)
    ensures Find(recs, name, true, k) == Some(k) && !IsVolumeLabel(recs[k])
  {
    hide NewRecord, Key, Encode, Upper, Representable, FirstCluster, IsLongName, IsVolumeLabel;
    KeyOfEncoded(name);
    LegalNotZero(Encode(name), name);
    PlainAttribute(recs[k]);
    assert recs[k][0] == Packed(recs[k])[0];
  }

  lemma PlainAttribute(r: Record)
    requires Attr(r) / 8 % 2 == 0
    ensures !IsVolumeLabel(r) && !IsLongName(r)
  {
  }
}
