/**
 The block device behind `fat32_block_ops_t`: an array of 512-byte sectors whose operations either
 succeed or fail without touching the sectors or the caller's buffer. Which operations fail is fixed
 by `fails`, indexed by the number of operations done so far.
 */
module BlockDevice {
  import opened Bytes

  /** The bytes of `count` consecutive sectors from `lba`. */
  function Span(sectors: seq<Sector>, lba: nat, count: nat): (bytes: seq<Byte>)
    requires lba + count <= |sectors|
    ensures |bytes| == 512 * count
    decreases count
  {
    if count == 0 then [] else sectors[lba] + Span(sectors, lba + 1, count - 1)
  }

  /** The sectors after `bytes` has been stored from `lba` on. */
  function Overlay(sectors: seq<Sector>, lba: nat, bytes: seq<Byte>): (r: seq<Sector>)
    requires |bytes| % 512 == 0 && lba + |bytes| / 512 <= |sectors|
    ensures |r| == |sectors|
    ensures forall i :: 0 <= i < |sectors| && !(lba <= i < lba + |bytes| / 512) ==> r[i] == sectors[i]
    ensures Span(r, lba, |bytes| / 512) == bytes
    decreases |bytes|
  {
    if |bytes| == 0 then sectors else
      var rest := Overlay(sectors, lba + 1, bytes[512..]);
      var r := rest[lba := bytes[..512]];
      SpanFrame(rest, r, lba + 1, |bytes| / 512 - 1);
      r
  }

  lemma {:induction false} SpanFrame(s: seq<Sector>, t: seq<Sector>, lba: nat, count: nat)
    requires lba + count <= |s| && lba + count <= |t|
    requires forall i :: lba <= i < lba + count ==> s[i] == t[i]
    ensures Span(s, lba, count) == Span(t, lba, count)
    decreases count
  {
    if count > 0 {
      SpanFrame(s, t, lba + 1, count - 1);
    }
  }

  /** The bytes of the sectors, in order. */
  lemma {:induction false} SpanAt(s: seq<Sector>, lba: nat, count: nat, i: nat, j: nat)
    requires lba + count <= |s| && i < count && j < 512
    ensures Span(s, lba, count)[512 * i + j] == s[lba + i][j]
    decreases count
  {
    if i > 0 {
      SpanAt(s, lba + 1, count - 1, i - 1, j);
    }
  }

  lemma SpanOne(s: seq<Sector>, lba: nat)
    requires lba < |s|
    ensures Span(s, lba, 1) == s[lba]
  {
    assert Span(s, lba, 1) == s[lba] + Span(s, lba + 1, 0);
  }

  lemma OverlayOne(s: seq<Sector>, lba: nat, t: Sector)
    requires lba < |s|
    ensures Overlay(s, lba, t) == s[lba := t]
  {
    SpanOne(Overlay(s, lba, t), lba);
  }

  class Device {
    var sectors: seq<Sector>
    var ops: nat
    const fails: nat -> bool

    constructor (sectors: seq<Sector>, fails: nat -> bool)
      ensures this.sectors == sectors && this.fails == fails && ops == 0
    {
      this.sectors, this.fails, ops := sectors, fails, 0;
    }

    /** No operation fails. */
    ghost predicate Reliable()
    {
      forall n :: !fails(n)
    }

    method ReadSectors(lba: nat, count: nat) returns (ok: bool, bytes: seq<Byte>)
      requires lba + count <= |sectors|
      modifies this`ops
      ensures ops == old(ops) + 1
      ensures ok == !fails(old(ops))
      ensures ok ==> bytes == Span(sectors, lba, count)
    {
      ok := !fails(ops);
      ops := ops + 1;
      bytes := if ok then Span(sectors, lba, count) else [];
    }

    method WriteSectors(lba: nat, bytes: seq<Byte>) returns (ok: bool)
      requires |bytes| % 512 == 0 && lba + |bytes| / 512 <= |sectors|
      modifies this
      ensures ops == old(ops) + 1
      ensures ok == !fails(old(ops))
      ensures sectors == if ok then Overlay(old(sectors), lba, bytes) else old(sectors)
    {
      ok := !fails(ops);
      ops := ops + 1;
      if ok {
        sectors := Overlay(sectors, lba, bytes);
      }
    }
  }
}
