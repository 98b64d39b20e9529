/** 512-byte disk sectors and the little-endian 32-bit words stored in them. */
module Sectors {

  const SECTOR_SIZE := 512
  const PTRS_PER_BLOCK := 128
  const WORD_LIMIT := 0x1_0000_0000

  type byte = x: int | 0 <= x < 256
  type word = x: int | 0 <= x < WORD_LIMIT
  type Sector = s: seq<byte> | |s| == SECTOR_SIZE witness seq(SECTOR_SIZE, _ => 0)

  function ZeroSector(): (s: Sector)
    ensures forall i :: 0 <= i < SECTOR_SIZE ==> s[i] == 0
  {
    seq(SECTOR_SIZE, _ => 0)
  }

  function Zeros(n: nat): (z: seq<byte>)
    ensures |z| == n && forall i :: 0 <= i < n ==> z[i] == 0
  {
    seq(n, _ => 0)
  }

  /** The word stored at byte offset `off`. */
  function WordAt(s: seq<byte>, off: nat): word
    requires off + 4 <= |s|
  {
    var b0: int, b1: int, b2: int, b3: int := s[off], s[off + 1], s[off + 2], s[off + 3];
    b0 + 0x100 * b1 + 0x1_0000 * b2 + 0x100_0000 * b3
  }

  /** The four bytes of a word, least significant first. */
  function WordBytes(w: word): (s: seq<byte>)
    ensures |s| == 4
  {
    [w % 0x100, w / 0x100 % 0x100, w / 0x1_0000 % 0x100, w / 0x100_0000]
  }

  lemma WordBytesRoundTrip(w: word)
    ensures WordAt(WordBytes(w), 0) == w
  {
    var a, b := w / 0x100, w / 0x1_0000;
    assert b == a / 0x100 && w / 0x100_0000 == b / 0x100;
    assert w == w % 0x100 + 0x100 * a && a == a % 0x100 + 0x100 * b && b == b % 0x100 + 0x100 * (b / 0x100);
  }

  /** A sector read as an array of 128 block pointers. */
  function LoadPtrs(s: Sector): (p: seq<word>)
    ensures |p| == PTRS_PER_BLOCK
  {
    seq(PTRS_PER_BLOCK, i requires 0 <= i < PTRS_PER_BLOCK => WordAt(s, 4 * i))
  }

  /** An array of 128 block pointers written out as a sector. */
  function StorePtrs(p: seq<word>): Sector
    requires |p| == PTRS_PER_BLOCK
  {
    seq(SECTOR_SIZE, k requires 0 <= k < SECTOR_SIZE => WordBytes(p[k / 4])[k % 4])
  }

  lemma StoredWord(p: seq<word>, i: nat)
    requires |p| == PTRS_PER_BLOCK && i < PTRS_PER_BLOCK
    ensures StorePtrs(p)[4 * i..4 * i + 4] == WordBytes(p[i])
  {
    var s := StorePtrs(p);
    assert (4 * i) / 4 == (4 * i + 1) / 4 == (4 * i + 2) / 4 == (4 * i + 3) / 4 == i;
    assert s[4 * i] == WordBytes(p[i])[0];
    assert s[4 * i + 1] == WordBytes(p[i])[1];
    assert s[4 * i + 2] == WordBytes(p[i])[2];
    assert s[4 * i + 3] == WordBytes(p[i])[3];
  }

  lemma PtrsRoundTrip(p: seq<word>)
    requires |p| == PTRS_PER_BLOCK
    ensures LoadPtrs(StorePtrs(p)) == p
  {
    var s := StorePtrs(p);
    forall i | 0 <= i < PTRS_PER_BLOCK
      ensures WordAt(s, 4 * i) == p[i]
    {
      StoredWord(p, i);
      assert WordAt(s, 4 * i) == WordAt(s[4 * i..4 * i + 4], 0);
      WordBytesRoundTrip(p[i]);
    }
  }

  lemma WordAtRoundTrip(s: seq<byte>, off: nat)
    requires off + 4 <= |s|
    ensures WordBytes(WordAt(s, off)) == s[off..off + 4]
  {
    var b0: int, b1: int, b2: int, b3: int := s[off], s[off + 1], s[off + 2], s[off + 3];
    var w := WordAt(s, off);
    assert w / 0x100 == b1 + 0x100 * b2 + 0x1_0000 * b3;
    assert w / 0x1_0000 == b2 + 0x100 * b3;
  }

  lemma SectorRoundTrip(s: Sector)
    ensures StorePtrs(LoadPtrs(s)) == s
  {
    forall k | 0 <= k < SECTOR_SIZE
      ensures StorePtrs(LoadPtrs(s))[k] == s[k]
    {
      WordAtRoundTrip(s, 4 * (k / 4));
      assert s[4 * (k / 4)..4 * (k / 4) + 4][k % 4] == s[k];
    }
  }

  /** `src` copied over the bytes of `dst` that start at `off` (memcpy). */
  function Overwrite(dst: seq<byte>, off: nat, src: seq<byte>): (r: seq<byte>)
    requires off + |src| <= |dst|
    ensures |r| == |dst|
    ensures forall k :: 0 <= k < |r| ==> r[k] == if off <= k < off + |src| then src[k - off] else dst[k]
  {
    dst[..off] + src + dst[off + |src|..]
  }
}
