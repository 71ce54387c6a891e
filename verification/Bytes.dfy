/**
 Bytes, 512-byte sectors and the little-endian 32-bit words stored in them.
 A mask with 0x0FFFFFFF is written as a remainder by 2^28, a mask with 0xF0000000
 as the multiple of 2^28 below the word, and the `|` of the two as their sum.
 */
module Bytes {

  type Byte = x: int | 0 <= x < 256

  type Sector = s: seq<Byte> | |s| == 512 witness seq(512, _ => 0)

  datatype Option<+T> = None | Some(value: T)

  /** What a C string function sees of a buffer. */
  function CString(s: seq<Byte>): (r: seq<Byte>)
    ensures r <= s && 0 !in r && (forall i :: 0 <= i < |r| ==> r[i] != 0) && (|r| < |s| ==> s[|r|] == 0)
  {
    if s == [] || s[0] == 0 then [] else [s[0]] + CString(s[1..])
  }

  lemma {:induction false} CStringAll(s: seq<Byte>)
    requires 0 !in s
    ensures CString(s) == s
  {
    if s != [] {
      CStringAll(s[1..]);
    }
  }

  function Word(s: seq<Byte>, at: nat): (w: nat)
    requires at + 4 <= |s|
    ensures w < 0x1_0000_0000
  {
    s[at] as int + 0x100 * (s[at + 1] as int) + 0x1_0000 * (s[at + 2] as int) + 0x100_0000 * (s[at + 3] as int)
  }

  /** The byte order: the first byte is the lowest. */
  lemma WordOrder(s: seq<Byte>, at: nat)
    requires at + 4 <= |s|
    ensures var w := Word(s, at);
            && w % 0x100 == s[at] && w / 0x100 % 0x100 == s[at + 1]
            && w / 0x1_0000 % 0x100 == s[at + 2] && w / 0x100_0000 == s[at + 3]
  {
    ByteOrder(s[at], s[at + 1], s[at + 2], s[at + 3]);
  }

  lemma ByteOrder(a: Byte, b: Byte, c: Byte, d: Byte)
    ensures var w := a + 0x100 * b + 0x1_0000 * c + 0x100_0000 * d;
            && w % 0x100 == a && w / 0x100 % 0x100 == b && w / 0x1_0000 % 0x100 == c && w / 0x100_0000 == d
  {
    var w := a + 0x100 * b + 0x1_0000 * c + 0x100_0000 * d;
    DivModUnique(w, b + 0x100 * c + 0x1_0000 * d, a, 0x100);
    DivModUnique(b + 0x100 * c + 0x1_0000 * d, c + 0x100 * d, b, 0x100);
    DivModUnique(w, c + 0x100 * d, a + 0x100 * b, 0x1_0000);
    DivModUnique(c + 0x100 * d, d, c, 0x100);
    DivModUnique(w, d, a + 0x100 * b + 0x1_0000 * c, 0x100_0000);
  }

  /** The store through a `uint32_t *` into a byte buffer: read back as written, four bytes touched. */
  function PutWord(s: seq<Byte>, at: nat, w: nat): (t: seq<Byte>)
    requires at + 4 <= |s| && w < 0x1_0000_0000
    ensures |t| == |s|
    ensures Word(t, at) == w
    ensures forall i :: 0 <= i < |s| && !(at <= i < at + 4) ==> t[i] == s[i]
  {
    var w1 := w / 0x100;
    var w2 := w1 / 0x100;
    var w3 := w2 / 0x100;
    s[at := w % 0x100][at + 1 := w1 % 0x100][at + 2 := w2 % 0x100][at + 3 := w3]
  }

  /** The 28 bits of a FAT word that name a cluster. */
  function Low28(w: nat): (v: nat) {
    w % 0x1000_0000
  }

  /** The FAT word that keeps the reserved high bits of `prior` and stores the low 28 bits of `value`. */
  function MergeEntry(prior: nat, value: nat): (w: nat)
    ensures prior < 0x1_0000_0000 ==> w < 0x1_0000_0000
    ensures Low28(w) == Low28(value) && w / 0x1000_0000 == prior / 0x1000_0000
  {
    prior / 0x1000_0000 * 0x1000_0000 + value % 0x1000_0000
  }

  /** `x / size` rounded up. */
  function CeilDiv(x: nat, size: nat): nat
    requires size > 0
  {
    (x + size - 1) / size
  }

  lemma MulLe(a: nat, b: nat, size: nat)
    requires a <= b
    ensures a * size <= b * size
  {
  }

  lemma NextMultiple(q: nat, size: nat)
    ensures (q + 1) * size == q * size + size
  {
  }

  lemma SmallMultiple(k: int, size: int)
    requires -size < k * size < size
    ensures k == 0
  {
  }

  lemma DivModUnique(x: nat, q: nat, r: nat, size: nat)
    requires size > 0 && r < size && x == q * size + r
    ensures x / size == q && x % size == r
  {
    assert x == x / size * size + x % size;
    assert (q - x / size) * size == x % size - r;
    SmallMultiple(q - x / size, size);
  }

  /** A byte offset is a block number and a place in the block; past `n` blocks it is past their bytes. */
  lemma OffsetSplit(offset: nat, size: nat, n: nat)
    requires size > 0
    ensures offset / size * size + offset % size == offset
    ensures n <= offset / size ==> n * size <= offset
  {
    if n <= offset / size {
      MulLe(n, offset / size, size);
    }
  }

  /** More than `k` blocks are needed exactly when the bytes do not fit in `k` blocks. */
  lemma CeilDivExceeds(x: nat, k: nat, size: nat)
    requires size > 0
    ensures CeilDiv(x, size) > k <==> x > k * size
  {
    var c := CeilDiv(x, size);
    assert x + size - 1 == c * size + (x + size - 1) % size;
    if c > k {
      MulLe(k + 1, c, size);
      assert (k + 1) * size == k * size + size;
    } else {
      MulLe(c, k, size);
    }
  }
}
