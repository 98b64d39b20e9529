/**
 Files of COSFS as byte sequences: what a block pointer tree and the sectors it points to say byte `pos` of a file is,
 and how linking and writing blocks changes that.
 */
module FileBytes {
  import opened Sectors
  import opened BlockTree

  type Disk = seq<Sector>

  /** The volume with every sector decoded as a pointer table. */
  function View(d: Disk): (t: Tables)
    ensures |t| == |d|
  {
    seq(|d|, b requires 0 <= b < |d| => LoadPtrs(d[b]))
  }

  lemma ViewWrite(d: Disk, b: nat, s: Sector)
    requires b < |d|
    ensures View(d[b := s]) == View(d)[b := LoadPtrs(s)]
  {
  }

  lemma ViewZero(d: Disk, b: nat)
    requires b < |d|
    ensures View(d[b := ZeroSector()]) == View(d)[b := NullTable()]
  {
    assert LoadPtrs(ZeroSector()) == NullTable();
  }

  lemma ViewStore(d: Disk, b: nat, p: seq<word>)
    requires b < |d| && |p| == PTRS_PER_BLOCK
    ensures View(d[b := StorePtrs(p)]) == View(d)[b := p]
  {
    PtrsRoundTrip(p);
  }

  /** The two writes that put block `b` into entry `i` of a table: zero `b` if it is a table itself, then the table. */
  function EntryWritten(d: Disk, table: nat, i: nat, b: nat, isTable: bool): (d': Disk)
    requires table < |d| && b < |d| && b < WORD_LIMIT && i < PTRS_PER_BLOCK
    ensures |d'| == |d|
  {
    (if isTable then d[b := ZeroSector()] else d)[table := StorePtrs(LoadPtrs(d[table])[i := b])]
  }

  lemma EntryWrittenView(d: Disk, table: nat, i: nat, b: word, q: Path)
    requires table < |d| && b < |d| && i < PTRS_PER_BLOCK && b != table
    ensures View(EntryWritten(d, table, i, b, !Leaf(q))) == SetEntry(Prepared(View(d), q, b), table, i, b)
  {
    var d1 := if Leaf(q) then d else d[b := ZeroSector()];
    ViewZero(d, b);
    ViewStore(d1, table, LoadPtrs(d[table])[i := b]);
  }

  lemma EntryWrittenNull(d: Disk, table: nat, i: nat, isTable: bool)
    requires 0 < table < |d| && i < PTRS_PER_BLOCK && LoadPtrs(d[table])[i] == 0
    ensures EntryWritten(d, table, i, 0, isTable) == if isTable then d[0 := ZeroSector()] else d
  {
    assert LoadPtrs(d[table])[i := 0] == LoadPtrs(d[table]);
    SectorRoundTrip(d[table]);
  }

  /** What decides the contents of files: the inode table and the sectors. */
  datatype Image = Image(ns: seq<Inode>, d: Disk)

  /** Byte `k` of block `l` of a file: a whole unmapped block reads as zeros. */
  function Byte(im: Image, ino: nat, l: nat, k: nat): byte
    requires WellFormed(im.ns) && ino < |im.ns| && k < SECTOR_SIZE
  {
    if l >= MAX_LOGICAL then 0
    else
      var b := Ptr(im.ns, View(im.d), PathOf(ino, l));
      if b == 0 || b >= |im.d| then 0 else im.d[b][k]
  }

  /** Byte `pos` of a file. */
  function ByteAt(im: Image, ino: nat, pos: nat): byte
    requires WellFormed(im.ns) && ino < |im.ns|
  {
    Byte(im, ino, pos / SECTOR_SIZE, pos % SECTOR_SIZE)
  }

  /** The bytes of every data block in `owner` are the same in both disks. */
  ghost predicate DataKept(owner: map<nat, Path>, d: Disk, d': Disk) {
    |d| == |d'| && forall b :: b in owner && Leaf(owner[b]) && b < |d| ==> d'[b] == d[b]
  }

  lemma EntryStep(ns: seq<Inode>, live: seq<bool>, d: Disk, owner: map<nat, Path>, lo: nat, hi: nat,
                  p: Path, i: nat, b: word)
    requires Owned(ns, live, View(d), owner, lo, hi)
    requires LivePath(ns, live, p) && !Leaf(p) && i < PTRS_PER_BLOCK && LivePath(ns, live, Child(p, i))
    requires Ptr(ns, View(d), p) != 0 && Ptr(ns, View(d), Child(p, i)) == 0
    requires lo <= b < hi && b !in owner
    ensures Ptr(ns, View(d), p) < |d|
    ensures
      var q := Child(p, i);
      var d' := EntryWritten(d, Ptr(ns, View(d), p), i, b, !Leaf(q));
      && Owned(ns, live, View(d'), owner[b := q], lo, hi)
      && Grown(ns, live, View(d), owner, ns, View(d'), owner[b := q], q)
      && DataKept(owner, d, d')
      && Ptr(ns, View(d'), q) == b
  {
    LinkEntryStep(ns, live, View(d), owner, lo, hi, p, i, b);
    EntryWrittenView(d, Ptr(ns, View(d), p), i, b, Child(p, i));
  }

  lemma FailedStep(ns: seq<Inode>, live: seq<bool>, d: Disk, owner: map<nat, Path>, lo: nat, hi: nat,
                   zeroed: bool, p: Path)
    requires Owned(ns, live, View(d), owner, lo, hi) && 0 < |d|
    ensures
      var d' := if zeroed then d[0 := ZeroSector()] else d;
      && Owned(ns, live, View(d'), owner, lo, hi)
      && Grown(ns, live, View(d), owner, ns, View(d'), owner, p)
      && DataKept(owner, d, d')
      && (LivePath(ns, live, p) ==> Ptr(ns, View(d'), p) == Ptr(ns, View(d), p))
  {
    ZeroSuperblock(ns, live, View(d), owner, lo, hi, p);
    ViewZero(d, 0);
  }

  /** Entry `i` of the table at `p` is set to block `b`, or left null when there is none and `b` is 0. */
  lemma EntryOutcome(ns: seq<Inode>, live: seq<bool>, d: Disk, owner: map<nat, Path>, lo: nat, hi: nat,
                     p: Path, i: nat, b: word, d': Disk, owner': map<nat, Path>)
    requires Owned(ns, live, View(d), owner, lo, hi) && 0 < |d|
    requires LivePath(ns, live, p) && !Leaf(p) && i < PTRS_PER_BLOCK && LivePath(ns, live, Child(p, i))
    requires Ptr(ns, View(d), p) != 0 && Ptr(ns, View(d), Child(p, i)) == 0 && Ptr(ns, View(d), p) < |d|
    requires b != 0 ==> lo <= b < hi && b !in owner
    requires b < |d| && d' == EntryWritten(d, Ptr(ns, View(d), p), i, b, !Leaf(Child(p, i)))
    requires owner' == if b != 0 then owner[b := Child(p, i)] else owner
    ensures Owned(ns, live, View(d'), owner', lo, hi) && DataKept(owner, d, d')
    ensures Grown(ns, live, View(d), owner, ns, View(d'), owner', Child(p, i)) && Ptr(ns, View(d'), Child(p, i)) == b
    ensures |d'| == |d| && d'[0] == if b == 0 && !Leaf(Child(p, i)) then ZeroSector() else d[0]
  {
    PtrOfChild(ns, View(d), p, i);
    if b != 0 {
      EntryStep(ns, live, d, owner, lo, hi, p, i, b);
    } else {
      FailedStep(ns, live, d, owner, lo, hi, !Leaf(Child(p, i)), Child(p, i));
      EntryWrittenNull(d, Ptr(ns, View(d), p), i, !Leaf(Child(p, i)));
    }
  }

  /** Only block pointers of inode `ino` may differ. */
  ghost predicate OnlyRoots(ns: seq<Inode>, ns': seq<Inode>, ino: nat) {
    && |ns'| == |ns|
    && (forall i :: 0 <= i < |ns| ==> ns'[i].size == ns[i].size && ns'[i].kind == ns[i].kind)
    && (forall i :: 0 <= i < |ns| && i != ino ==> ns'[i] == ns[i])
  }

  /** Whether block `l` of a file has a block of its own on disk. */
  predicate Mapped(im: Image, ino: nat, l: nat)
    requires WellFormed(im.ns) && ino < |im.ns|
  {
    l < MAX_LOGICAL && Ptr(im.ns, View(im.d), PathOf(ino, l)) != 0
  }

  /**
   One block write seen from the outside: bytes `off` up to `off + |chunk|` of block `l` are the chunk, the rest of
   that block is kept if it was mapped, and no other byte of any live file changes.
   */
  ghost predicate BlockWritten(im: Image, live: seq<bool>, im': Image, ino: nat, l: nat, off: nat, chunk: seq<byte>) {
    && WellFormed(im.ns) && WellFormed(im'.ns) && |im'.ns| == |im.ns| == |live|
    && ino < |im.ns|
    && Mapped(im', ino, l)
    && (forall i: nat, m: nat, k: nat :: i < |im.ns| && live[i] && k < SECTOR_SIZE && (i != ino || m != l) ==>
          Byte(im', i, m, k) == Byte(im, i, m, k))
    && (forall i: nat, m: nat :: i < |im.ns| && live[i] && (i != ino || m != l) ==>
          Mapped(im', i, m) == Mapped(im, i, m))
    && (forall k: nat :: k < SECTOR_SIZE ==>
          if off <= k < off + |chunk| then Byte(im', ino, l, k) == chunk[k - off]
          else Mapped(im, ino, l) ==> Byte(im', ino, l, k) == Byte(im, ino, l, k))
  }

  lemma LeavesDiffer(ino: nat, l: nat, i: nat, m: nat)
    requires l < MAX_LOGICAL && m < MAX_LOGICAL && IsPrefix(PathOf(i, m), PathOf(ino, l))
    ensures i == ino && m == l
  {
    assert PathOf(i, m).idx == PathOf(ino, l).idx;
    PathOfRoundTrip(ino, l);
    PathOfRoundTrip(i, m);
  }

  /** A data block of another file, or another block of the same file, is neither moved nor rewritten. */
  lemma OtherBlockKept(ns: seq<Inode>, live: seq<bool>, d: Disk, owner: map<nat, Path>,
                       ns': seq<Inode>, d': Disk, owner': map<nat, Path>, lo: nat, hi: nat,
                       ino: nat, l: nat, i: nat, m: nat)
    requires Owned(ns, live, View(d), owner, lo, hi) && Owned(ns', live, View(d'), owner', lo, hi)
    requires ino < |ns| && live[ino] && l < MAX_LOGICAL
    requires i < |ns| && live[i] && m < MAX_LOGICAL && (i != ino || m != l)
    requires Grown(ns, live, View(d), owner, ns', View(d'), owner', PathOf(ino, l)) && DataKept(owner, d, d')
    ensures var p := Ptr(ns, View(d), PathOf(i, m));
      && Ptr(ns', View(d'), PathOf(i, m)) == p
      && (p != 0 ==> p != Ptr(ns', View(d'), PathOf(ino, l)) && p < |d| && d'[p] == d[p])
  {
    if IsPrefix(PathOf(i, m), PathOf(ino, l)) {
      LeavesDiffer(ino, l, i, m);
    }
    PathOfRoundTrip(ino, l);
    PathOfRoundTrip(i, m);
    assert LivePath(ns, live, PathOf(i, m)) && LivePath(ns, live, PathOf(ino, l));
  }

  lemma BlockWritePtrs(ns: seq<Inode>, live: seq<bool>, d: Disk, owner: map<nat, Path>,
                       ns': seq<Inode>, d': Disk, owner': map<nat, Path>, lo: nat, hi: nat,
                       ino: nat, l: nat, b: word, buf: Sector)
    requires Owned(ns, live, View(d), owner, lo, hi) && Owned(ns', live, View(d'), owner', lo, hi)
    requires ino < |ns| && live[ino] && l < MAX_LOGICAL
    requires Grown(ns, live, View(d), owner, ns', View(d'), owner', PathOf(ino, l)) && DataKept(owner, d, d')
    requires b == Ptr(ns', View(d'), PathOf(ino, l)) != 0 && b < |d'|
    ensures Owned(ns', live, View(d'[b := buf]), owner', lo, hi)
    ensures Ptr(ns', View(d'[b := buf]), PathOf(ino, l)) == b
    ensures Ptr(ns, View(d), PathOf(ino, l)) == 0 || (Ptr(ns, View(d), PathOf(ino, l)) == b && b < |d| && d'[b] == d[b])
    ensures forall i: nat, m: nat :: i < |ns| && live[i] && m < MAX_LOGICAL && (i != ino || m != l) ==>
      var p := Ptr(ns, View(d), PathOf(i, m));
      Ptr(ns', View(d'[b := buf]), PathOf(i, m)) == p && (p != 0 ==> p < |d| && d'[b := buf][p] == d[p])
  {
    ViewWrite(d', b, buf);
    WriteDataOwned(ns', live, View(d'), owner', lo, hi, b, LoadPtrs(buf));
    forall i: nat, m: nat | i < |ns| && live[i] && m < MAX_LOGICAL && (i != ino || m != l)
      ensures var p := Ptr(ns, View(d), PathOf(i, m));
        Ptr(ns', View(d'), PathOf(i, m)) == p && (p != 0 ==> p < |d| && d'[b := buf][p] == d[p])
    {
      OtherBlockKept(ns, live, d, owner, ns', d', owner', lo, hi, ino, l, i, m);
    }
  }

  /** Where the pointers are kept, the bytes are, but for those of the chunk. */
  lemma BlockWriteBytes(ns: seq<Inode>, live: seq<bool>, d: Disk, ns': seq<Inode>, d': Disk, ino: nat, l: nat, b: word,
                        was: Sector, off: nat, chunk: seq<byte>)
    requires WellFormed(ns) && WellFormed(ns') && |ns'| == |ns| == |live| && ino < |ns| && l < MAX_LOGICAL
    requires off + |chunk| <= SECTOR_SIZE && Ptr(ns', View(d'), PathOf(ino, l)) == b != 0
    requires b < |d'| && d'[b] == Overwrite(was, off, chunk)
    requires Ptr(ns, View(d), PathOf(ino, l)) == 0 || (Ptr(ns, View(d), PathOf(ino, l)) == b && b < |d| && was == d[b])
    requires forall i: nat, m: nat :: i < |ns| && live[i] && m < MAX_LOGICAL && (i != ino || m != l) ==>
      var p := Ptr(ns, View(d), PathOf(i, m));
      Ptr(ns', View(d'), PathOf(i, m)) == p && (p != 0 ==> p < |d| && p < |d'| && d'[p] == d[p])
    ensures BlockWritten(Image(ns, d), live, Image(ns', d'), ino, l, off, chunk)
  {
  }

  lemma BlockWrite(ns: seq<Inode>, live: seq<bool>, d: Disk, owner: map<nat, Path>,
                   ns': seq<Inode>, d': Disk, owner': map<nat, Path>, lo: nat, hi: nat,
                   ino: nat, l: nat, b: word, buf: Sector, off: nat, chunk: seq<byte>)
    requires Owned(ns, live, View(d), owner, lo, hi) && Owned(ns', live, View(d'), owner', lo, hi)
    requires ino < |ns| && live[ino] && l < MAX_LOGICAL
    requires Grown(ns, live, View(d), owner, ns', View(d'), owner', PathOf(ino, l)) && DataKept(owner, d, d')
    requires b == Ptr(ns', View(d'), PathOf(ino, l)) != 0 && b < |d'|
    requires off + |chunk| <= SECTOR_SIZE && buf == Overwrite(d'[b], off, chunk)
    ensures BlockWritten(Image(ns, d), live, Image(ns', d'[b := buf]), ino, l, off, chunk)
    ensures Owned(ns', live, View(d'[b := buf]), owner', lo, hi)
  {
    BlockWritePtrs(ns, live, d, owner, ns', d', owner', lo, hi, ino, l, b, buf);
    BlockWriteBytes(ns, live, d, ns', d'[b := buf], ino, l, b, d'[b], off, chunk);
  }

  /** No byte of any live file differs, and the same blocks are mapped. */
  ghost predicate Unwritten(im: Image, live: seq<bool>, im': Image) {
    && WellFormed(im.ns) && WellFormed(im'.ns) && |im'.ns| == |im.ns| == |live|
    && (forall i: nat, l: nat, k: nat :: i < |im.ns| && live[i] && k < SECTOR_SIZE ==>
          Byte(im', i, l, k) == Byte(im, i, l, k))
    && (forall i: nat, l: nat :: i < |im.ns| && live[i] ==> Mapped(im', i, l) == Mapped(im, i, l))
  }

  lemma FailedWrite(ns: seq<Inode>, live: seq<bool>, d: Disk, owner: map<nat, Path>,
                    ns': seq<Inode>, d': Disk, owner': map<nat, Path>, lo: nat, hi: nat, ino: nat, l: nat)
    requires Owned(ns, live, View(d), owner, lo, hi) && Owned(ns', live, View(d'), owner', lo, hi)
    requires ino < |ns| && live[ino] && l < MAX_LOGICAL
    requires Grown(ns, live, View(d), owner, ns', View(d'), owner', PathOf(ino, l)) && DataKept(owner, d, d')
    requires Ptr(ns', View(d'), PathOf(ino, l)) == 0
    ensures Unwritten(Image(ns, d), live, Image(ns', d'))
  {
    forall i: nat, m: nat | i < |ns| && live[i] && m < MAX_LOGICAL
      ensures var p := Ptr(ns, View(d), PathOf(i, m));
        Ptr(ns', View(d'), PathOf(i, m)) == p && (p != 0 ==> p < |d| && d'[p] == d[p])
    {
      if i == ino && m == l {
        assert LivePath(ns, live, PathOf(ino, l));
      } else {
        OtherBlockKept(ns, live, d, owner, ns', d', owner', lo, hi, ino, l, i, m);
      }
    }
  }

  /** Whether block `l` overlaps the `w` bytes that start at `offset`. */
  predicate Touched(offset: nat, w: nat, l: nat) {
    0 < w && offset < SECTOR_SIZE * (l + 1) && SECTOR_SIZE * l < offset + w
  }

  /**
   Byte `k` of block `l` of file `i`, when `w` bytes of `data` have been written at `offset` of file `ino`. Only bytes
   of touched blocks that were not mapped before are left open: a fresh data block is not cleared.
   */
  ghost predicate WroteByte(im: Image, im': Image, ino: nat, offset: nat, data: seq<byte>, w: nat, i: nat, l: nat,
                            k: nat)
    requires WellFormed(im.ns) && WellFormed(im'.ns) && i < |im.ns| == |im'.ns| && k < SECTOR_SIZE && w <= |data|
  {
    if i == ino && offset <= SECTOR_SIZE * l + k < offset + w then
      Byte(im', i, l, k) == data[SECTOR_SIZE * l + k - offset]
    else
      (i == ino && Touched(offset, w, l) ==> Mapped(im, i, l)) ==> Byte(im', i, l, k) == Byte(im, i, l, k)
  }

  ghost predicate WroteBlock(im: Image, im': Image, ino: nat, offset: nat, w: nat, i: nat, l: nat)
    requires WellFormed(im.ns) && WellFormed(im'.ns) && i < |im.ns| == |im'.ns|
  {
    Mapped(im', i, l) == (Mapped(im, i, l) || (i == ino && Touched(offset, w, l)))
  }

  /** The first `w` bytes of `data` have been written at `offset` of file `ino`. */
  ghost predicate Wrote(im: Image, live: seq<bool>, im': Image, ino: nat, offset: nat, data: seq<byte>, w: nat)
  {
    && WellFormed(im.ns) && WellFormed(im'.ns) && |im'.ns| == |im.ns| == |live|
    && ino < |im.ns| && live[ino] && w <= |data|
    && (forall i: nat, l: nat, k: nat {:trigger WroteByte(im, im', ino, offset, data, w, i, l, k)} ::
          i < |im.ns| && live[i] && k < SECTOR_SIZE ==> WroteByte(im, im', ino, offset, data, w, i, l, k))
    && (forall i: nat, l: nat {:trigger WroteBlock(im, im', ino, offset, w, i, l)} ::
          i < |im.ns| && live[i] ==> WroteBlock(im, im', ino, offset, w, i, l))
  }

  /** How many of `rest` remaining bytes go into the block from offset `off` on. */
  function ChunkSize(off: nat, rest: nat): (c: nat)
    requires off < SECTOR_SIZE && 0 < rest
    ensures 0 < c <= rest && off + c <= SECTOR_SIZE && (c < rest ==> off + c == SECTOR_SIZE)
  {
    if SECTOR_SIZE - off > rest then rest else SECTOR_SIZE - off
  }

  /** The `k`-th byte of a read that starts at `offset`; positions are 32 bits wide. */
  function ReadByte(im: Image, ino: nat, offset: nat, k: nat): byte
    requires WellFormed(im.ns) && ino < |im.ns|
  {
    ByteAt(im, ino, (offset + k) % WORD_LIMIT)
  }

  /** A chunk stays inside one block, and a 32-bit position cannot wrap inside a block. */
  lemma ChunkPosition(offset: nat, done: nat, l: nat, off: nat, j: nat)
    requires (offset + done) % WORD_LIMIT == SECTOR_SIZE * l + off && off + j < SECTOR_SIZE
    ensures (offset + (done + j)) % WORD_LIMIT / SECTOR_SIZE == l
    ensures (offset + (done + j)) % WORD_LIMIT % SECTOR_SIZE == off + j
  {
    var q := (offset + done) / WORD_LIMIT;
    assert offset + done == WORD_LIMIT * q + SECTOR_SIZE * l + off;
    assert SECTOR_SIZE * l + off + j < WORD_LIMIT;
    assert (offset + (done + j)) % WORD_LIMIT == SECTOR_SIZE * l + off + j;
  }

  /** `buffer` is what a read from `offset` on delivers. */
  ghost predicate HasRead(im: Image, ino: nat, offset: nat, buffer: seq<byte>) {
    && WellFormed(im.ns) && ino < |im.ns|
    && forall k: nat :: k < |buffer| ==> buffer[k] == ReadByte(im, ino, offset, k)
  }

  lemma ReadMore(im: Image, ino: nat, offset: nat, buffer: seq<byte>, l: nat, off: nat, sector: Sector, c: nat)
    requires HasRead(im, ino, offset, buffer)
    requires (offset + |buffer|) % WORD_LIMIT == SECTOR_SIZE * l + off && off + c <= SECTOR_SIZE
    requires forall k: nat :: k < SECTOR_SIZE ==> sector[k] == Byte(im, ino, l, k)
    ensures HasRead(im, ino, offset, buffer + sector[off..off + c])
  {
    var r := buffer + sector[off..off + c];
    forall k: nat | k < |r|
      ensures r[k] == ReadByte(im, ino, offset, k)
    {
      if k >= |buffer| {
        ChunkPosition(offset, |buffer|, l, off, k - |buffer|);
        assert r[k] == sector[off + (k - |buffer|)];
      }
    }
  }

  lemma WroteMore(im: Image, live: seq<bool>, im1: Image, im2: Image,
                  ino: nat, offset: nat, data: seq<byte>, w: nat, l: nat, off: nat, chunk: seq<byte>, w': nat)
    requires Wrote(im, live, im1, ino, offset, data, w)
    requires offset + w == SECTOR_SIZE * l + off && off < SECTOR_SIZE && (w > 0 ==> off == 0)
    requires 0 < |chunk| && off + |chunk| <= SECTOR_SIZE && w' == w + |chunk| <= |data| && chunk == data[w..w']
    requires BlockWritten(im1, live, im2, ino, l, off, chunk)
    ensures Wrote(im, live, im2, ino, offset, data, w')
  {
    forall m: nat
      ensures Touched(offset, w', m) <==> Touched(offset, w, m) || m == l
    {
    }
    forall i: nat, m: nat | i < |im.ns| && live[i]
      ensures WroteBlock(im, im2, ino, offset, w', i, m)
    {
      assert WroteBlock(im, im1, ino, offset, w, i, m);
    }
    forall i: nat, m: nat, k: nat | i < |im.ns| && live[i] && k < SECTOR_SIZE
      ensures WroteByte(im, im2, ino, offset, data, w', i, m, k)
    {
      assert WroteByte(im, im1, ino, offset, data, w, i, m, k) && WroteBlock(im, im1, ino, offset, w, i, m);
    }
  }

  lemma WroteNothingMore(im: Image, live: seq<bool>, im1: Image, im2: Image,
                         ino: nat, offset: nat, data: seq<byte>, w: nat)
    requires Wrote(im, live, im1, ino, offset, data, w) && Unwritten(im1, live, im2)
    ensures Wrote(im, live, im2, ino, offset, data, w)
  {
    forall i: nat, m: nat | i < |im.ns| && live[i]
      ensures WroteBlock(im, im2, ino, offset, w, i, m)
    {
      assert WroteBlock(im, im1, ino, offset, w, i, m);
    }
    forall i: nat, m: nat, k: nat | i < |im.ns| && live[i] && k < SECTOR_SIZE
      ensures WroteByte(im, im2, ino, offset, data, w, i, m, k)
    {
      assert WroteByte(im, im1, ino, offset, data, w, i, m, k);
    }
  }

  lemma WroteTurn(im: Image, live: seq<bool>, im1: Image, im2: Image, ino: nat, offset: nat, data: seq<byte>, w: nat,
                  l: nat, off: nat, chunk: seq<byte>, w': nat)
    requires Wrote(im, live, im1, ino, offset, data, w)
    requires offset + w == SECTOR_SIZE * l + off && off < SECTOR_SIZE && (w > 0 ==> off == 0)
    requires 0 < |chunk| && off + |chunk| <= SECTOR_SIZE && w + |chunk| <= |data| && chunk == data[w..w + |chunk|]
    requires if w' == w then Unwritten(im1, live, im2)
             else w' == w + |chunk| && BlockWritten(im1, live, im2, ino, l, off, chunk)
    ensures Wrote(im, live, im2, ino, offset, data, w')
  {
    if w' != w {
      WroteMore(im, live, im1, im2, ino, offset, data, w, l, off, chunk, w');
    } else {
      WroteNothingMore(im, live, im1, im2, ino, offset, data, w);
    }
  }

  /** Pointers are followed through the roots alone: changing the size field moves nothing. */
  lemma ResizeFrame(ns: seq<Inode>, live: seq<bool>, d: Disk, owner: map<nat, Path>, lo: nat, hi: nat, ino: nat,
                    size: word)
    requires Owned(ns, live, View(d), owner, lo, hi) && ino < |ns|
    ensures var ns' := ns[ino := ns[ino].(size := size)];
      && Owned(ns', live, View(d), owner, lo, hi)
      && Unwritten(Image(ns, d), live, Image(ns', d))
  {
    var ns' := ns[ino := ns[ino].(size := size)];
    forall p | Proper(p, |ns|)
      ensures Ptr(ns', View(d), p) == Ptr(ns, View(d), p)
    {
      SameRoots(ns, ns', View(d), p);
    }
  }

  /** What was written is what is read back, through any window of the written range and across all block levels. */
  lemma WriteThenRead(im: Image, live: seq<bool>, im': Image, ino: nat, offset: nat, data: seq<byte>,
                      from: nat, buffer: seq<byte>)
    requires Wrote(im, live, im', ino, offset, data, |data|) && HasRead(im', ino, from, buffer)
    requires offset <= from && from + |buffer| <= offset + |data| <= WORD_LIMIT
    ensures buffer == data[from - offset..from - offset + |buffer|]
  {
    forall k: nat | k < |buffer|
      ensures buffer[k] == data[from - offset + k]
    {
      assert buffer[k] == ReadByte(im', ino, from, k);
      var pos := from + k;
      assert pos % WORD_LIMIT == pos && pos == SECTOR_SIZE * (pos / SECTOR_SIZE) + pos % SECTOR_SIZE;
      assert WroteByte(im, im', ino, offset, data, |data|, ino, pos / SECTOR_SIZE, pos % SECTOR_SIZE);
    }
  }

  /** A read of another live file returns what it returned before the write. */
  lemma OtherFileRead(im: Image, live: seq<bool>, im': Image, ino: nat, offset: nat, data: seq<byte>, w: nat,
                      other: nat, from: nat, buffer: seq<byte>)
    requires Wrote(im, live, im', ino, offset, data, w) && other < |live| && live[other] && other != ino
    requires HasRead(im, other, from, buffer)
    ensures HasRead(im', other, from, buffer)
  {
    forall k: nat | k < |buffer|
      ensures buffer[k] == ReadByte(im', other, from, k)
    {
      assert buffer[k] == ReadByte(im, other, from, k);
      var pos := (from + k) % WORD_LIMIT;
      assert WroteByte(im, im', ino, offset, data, w, other, pos / SECTOR_SIZE, pos % SECTOR_SIZE);
    }
  }
}
