/**
 COSFS, the kernel's own filesystem (fs.c): bitmap allocation, block addressing through four levels,
 file I/O, deletion and directories.
 */
module Cosfs {
  import opened Sectors
  import opened BlockTree
  import opened FileBytes
  import opened Directory

  const BITS_PER_SECTOR := 4096
  const ROOT_INODE := 0
  const INODE_SIZE := 128
  const INODE_BITMAP_SIZE := 32768

  /** Where qformat_fs puts the regions of a volume; the superblock is sector 0 and the block bitmap starts at 1. */
  datatype Layout = Layout(inodeCount: nat, bitmapSectors: nat, inodeStart: nat, dataStart: nat)

  function LayoutOf(total: nat): Layout {
    var wanted := if total / 4 > INODE_BITMAP_SIZE * 8 then INODE_BITMAP_SIZE * 8 else total / 4;
    var rounded := (wanted + 7) / 8 * 8;
    var inodeCount := if rounded == 0 then 8 else rounded;
    var bitmapSectors := ((total + 7) / 8 + SECTOR_SIZE - 1) / SECTOR_SIZE;
    var inodeBitmapSectors := ((inodeCount + 7) / 8 + SECTOR_SIZE - 1) / SECTOR_SIZE;
    var inodeStart := 1 + bitmapSectors + inodeBitmapSectors;
    Layout(inodeCount, bitmapSectors, inodeStart,
           inodeStart + (inodeCount * INODE_SIZE + SECTOR_SIZE - 1) / SECTOR_SIZE)
  }

  /**
   The regions of a formatted volume are large enough for what they hold and leave room for data: there is a bit
   for every block and for every inode, and every inode has its 128 bytes. A data block remains from six sectors on.
   */
  lemma LayoutFits(total: nat)
    ensures var g := LayoutOf(total);
      && total <= BITS_PER_SECTOR * g.bitmapSectors
      && g.inodeCount <= BITS_PER_SECTOR * (g.inodeStart - 1 - g.bitmapSectors)
      && 0 < g.inodeCount <= INODE_BITMAP_SIZE * 8
      && INODE_SIZE * g.inodeCount <= SECTOR_SIZE * (g.dataStart - g.inodeStart)
      && 1 < g.dataStart && (g.dataStart < total <==> 6 <= total)
  {
    var g := LayoutOf(total);
    assert g.inodeCount <= total / 4 + 8 && g.inodeCount <= INODE_BITMAP_SIZE * 8;
    assert g.bitmapSectors <= total / 4096 + 2;
    assert g.inodeStart - 1 - g.bitmapSectors <= g.inodeCount / 4096 + 2;
    assert g.dataStart - g.inodeStart <= g.inodeCount / 4 + 1;
    if total < 1024 {
      SmallLayouts(total);
    }
  }

  /** No region of a formatted volume has a sector more than it needs. */
  lemma LayoutIsTight(total: nat)
    ensures var g := LayoutOf(total);
      && (total > 0 ==> BITS_PER_SECTOR * (g.bitmapSectors - 1) < total)
      && BITS_PER_SECTOR * (g.inodeStart - 2 - g.bitmapSectors) < g.inodeCount
      && SECTOR_SIZE * (g.dataStart - g.inodeStart - 1) < INODE_SIZE * g.inodeCount
  {
    EightInodes(total);
  }

  /** There is an inode for every fourth block, in whole eights and at least one, as far as the bitmap can count. */
  lemma InodeForEveryFourth(total: nat)
    ensures var n, most := LayoutOf(total).inodeCount, INODE_BITMAP_SIZE * 8;
      && n % 8 == 0 && 8 <= n <= most
      && (n < most ==> total / 4 <= n)
      && (n > 8 ==> n - 8 < total / 4)
  {
    var wanted := if total / 4 > INODE_BITMAP_SIZE * 8 then INODE_BITMAP_SIZE * 8 else total / 4;
    RoundedUp(wanted);
  }

  lemma RoundedUp(n: nat)
    ensures var r := (n + 7) / 8 * 8; r % 8 == 0 && n <= r < n + 8
  {
  }

  lemma EightInodes(total: nat)
    ensures 8 <= LayoutOf(total).inodeCount
  {
    assert total / 4 > 0 ==> (total / 4 + 7) / 8 >= 1;
  }

  /** The regions of small volumes take five sectors, and then at most two thirds. */
  lemma SmallLayouts(total: nat)
    requires total < 1024
    ensures 6 <= total <==> LayoutOf(total).dataStart < total
  {
    var g := LayoutOf(total);
    assert g.bitmapSectors <= 1 && (0 < total ==> g.bitmapSectors == 1);
    assert g.inodeCount == if total < 4 then 8 else (total / 4 + 7) / 8 * 8;
    assert g.inodeStart == 2 + g.bitmapSectors;
    assert g.dataStart == g.inodeStart + g.inodeCount / 4;
  }

  ghost function FreeIn(bits: seq<bool>, lo: nat, hi: nat): set<nat> {
    set b | lo <= b < hi && b < |bits| && !bits[b]
  }

  /** The bits of the data area still tell which blocks are owned. */
  lemma BitTaken(bits: seq<bool>, owner: map<nat, Path>, bits': seq<bool>, owner': map<nat, Path>, lo: nat, hi: nat,
                 b: nat, p: Path)
    requires hi <= |bits| && (forall x :: lo <= x < hi ==> (bits[x] <==> x in owner))
    requires if b == 0 then bits' == bits && owner' == owner
             else b < |bits| && bits' == bits[b := true] && owner' == owner[b := p]
    ensures |bits'| == |bits| && forall x :: lo <= x < hi ==> (bits'[x] <==> x in owner')
  {
  }

  /** What an allocation does to the number of free blocks. */
  lemma BlockTaken(bits: seq<bool>, lo: nat, hi: nat, b: nat)
    requires 0 < lo && hi <= |bits|
    requires if b == 0 then forall x :: lo <= x < hi ==> bits[x] else lo <= b < hi && !bits[b]
    ensures b == 0 <==> |FreeIn(bits, lo, hi)| == 0
    ensures b != 0 ==> |FreeIn(bits[b := true], lo, hi)| == |FreeIn(bits, lo, hi)| - 1
  {
    if b == 0 {
      assert FreeIn(bits, lo, hi) == {};
    } else {
      assert FreeIn(bits[b := true], lo, hi) == FreeIn(bits, lo, hi) - {b};
      assert b in FreeIn(bits, lo, hi);
    }
  }

  ghost function Range(lo: nat, hi: nat): (r: set<nat>)
    requires lo <= hi
    ensures |r| == hi - lo && forall b :: b in r <==> lo <= b < hi
  {
    if lo == hi then {} else Range(lo, hi - 1) + {hi - 1}
  }

  /** Every block of the data area is free or owned. */
  lemma FreeOrOwned(bits: seq<bool>, owner: map<nat, Path>, lo: nat, hi: nat)
    requires lo <= hi <= |bits| && (forall b :: b in owner ==> lo <= b < hi)
    requires forall b :: lo <= b < hi ==> (bits[b] <==> b in owner)
    ensures |FreeIn(bits, lo, hi)| + |owner| == hi - lo
  {
    var free := FreeIn(bits, lo, hi);
    assert free !! owner.Keys && |owner.Keys| == |owner|;
    assert |free + owner.Keys| == |free| + |owner.Keys|;
    assert Range(lo, hi) == free + owner.Keys;
  }

  /** The block behind the last one that a write of `n` bytes at `offset` reaches. */
  function EndBlock(offset: nat, n: nat): nat {
    if n == 0 then offset / SECTOR_SIZE else (offset + n - 1) / SECTOR_SIZE + 1
  }

  /** All that is written lies where blocks can be addressed. */
  predicate Addressable(offset: nat, n: nat) {
    n == 0 || offset + n <= SECTOR_SIZE * MAX_LOGICAL
  }

  /** How many blocks, tables included, a write of `n` bytes at `offset` has to allocate. */
  ghost function BlocksNeeded(im: Image, ino: nat, offset: nat, n: nat): nat
    requires WellFormed(im.ns) && Addressable(offset, n)
  {
    if n == 0 then 0 else |Lacking(im.ns, View(im.d), ino, offset / SECTOR_SIZE, EndBlock(offset, n))|
  }

  /** A write of `n` bytes at `offset` stays where blocks can be addressed and finds the blocks that it needs. */
  ghost predicate Fits(im: Image, free: nat, ino: nat, offset: nat, n: nat)
    requires WellFormed(im.ns)
  {
    Addressable(offset, n) && BlocksNeeded(im, ino, offset, n) <= free
  }

  /** All on the way to the blocks `a` to before `m` is owned, and nothing else has come to be owned since `own`. */
  ghost predicate SpentInFull(own: map<nat, Path>, own': map<nat, Path>, ino: nat, a: nat, m: nat) {
    a <= m <= MAX_LOGICAL && Spent(own, own', ino, a, m) && Way(ino, a, m) <= own'.Values
  }

  /** What came to be owned since `own` is on the way to block `l`, which is mapped or not. */
  ghost predicate TookFor(own: map<nat, Path>, own': map<nat, Path>, ino: nat, l: nat, mapped: bool)
    requires l < MAX_LOGICAL
  {
    Took(own, own', PathOf(ino, l)) && (mapped <==> PathOf(ino, l) in own'.Values)
  }

  /** The part of a write that goes into the next block: its number, the offset in it, and how many bytes. */
  predicate IsPiece(offset: nat, done: nat, all: nat, l: nat, off: nat, n: nat) {
    && offset + done == SECTOR_SIZE * l + off && off < SECTOR_SIZE
    && 0 < n && done + n <= all && off + n <= SECTOR_SIZE && (done + n < all ==> off + n == SECTOR_SIZE)
  }

  /** What has been allocated since `own` when `n` of `all` bytes at `offset` are written, to before block `next`. */
  ghost predicate SpentBy(own: map<nat, Path>, own': map<nat, Path>, ino: nat, offset: nat, n: nat, next: nat,
                          all: nat) {
    && Addressable(offset, n) && next == EndBlock(offset, n) && (0 < n < all ==> offset + n == SECTOR_SIZE * next)
    && (offset / SECTOR_SIZE < MAX_LOGICAL ==> SpentInFull(own, own', ino, offset / SECTOR_SIZE, next))
  }

  /** What has been allocated when the write of `n` bytes at `offset` is over, `done` or not. */
  ghost predicate SpentAll(own: map<nat, Path>, own': map<nat, Path>, ino: nat, offset: nat, n: nat, done: bool) {
    if n == 0 then own' == own && done
    else if Addressable(offset, n) then
      var a, b := offset / SECTOR_SIZE, EndBlock(offset, n);
      Spent(own, own', ino, a, b) && (done <==> Way(ino, a, b) <= own'.Values)
    else !done
  }

  lemma SpentTurn(o0: map<nat, Path>, o1: map<nat, Path>, o2: map<nat, Path>, ino: nat, offset: nat, n: nat, n': nat,
                  next: nat, l: nat, off: nat, size: nat, next': nat, all: nat)
    requires SpentBy(o0, o1, ino, offset, n, next, all) && IsPiece(offset, n, all, l, off, size)
    requires (n' == n || n' == n + size) && next' == l + 1
    requires if l < MAX_LOGICAL then TookFor(o1, o2, ino, l, n' > n) else o2 == o1 && n' == n
    ensures if n' > n then SpentBy(o0, o2, ino, offset, n', next', all) else SpentAll(o0, o2, ino, offset, all, false)
  {
    if l < MAX_LOGICAL {
      var first := offset / SECTOR_SIZE;
      SpentStep(o0, o1, o2, ino, first, l);
      if n' == n && Addressable(offset, all) {
        SpentWider(o0, o2, ino, first, next', EndBlock(offset, all));
      }
    }
  }

  /** Since the image `was`, `written` bytes are written to inode `ino`. */
  ghost predicate WrittenSo(was: Image, im: Image, live: seq<bool>, ino: nat, offset: nat, data: seq<byte>,
                            written: nat) {
    && written <= |data| && offset + written < WORD_LIMIT
    && OnlyRoots(was.ns, im.ns, ino) && Wrote(was, live, im, ino, offset, data, written)
  }

  lemma WrittenOn(was: Image, im: Image, live: seq<bool>, im': Image, ino: nat, offset: nat, data: seq<byte>,
                  w: nat, next: nat, l: nat, off: nat, n: nat, w': nat)
    requires WrittenSo(was, im, live, ino, offset, data, w) && (0 < w < |data| ==> offset + w == SECTOR_SIZE * next)
    requires IsPiece(offset, w, |data|, l, off, n) && OnlyRoots(im.ns, im'.ns, ino)
    requires if w' == w then Unwritten(im, live, im')
             else w' == w + n && l < MAX_LOGICAL && BlockWritten(im, live, im', ino, l, off, data[w..w + n])
    ensures WrittenSo(was, im', live, ino, offset, data, w')
  {
    WroteTurn(was, live, im, im', ino, offset, data, w, l, off, data[w..w + n], w');
  }

  datatype Snapshot = Snapshot(inodes: seq<Inode>, inodeBits: seq<bool>, disk: Disk, owner: map<nat, Path>)

  /** A new inode that owns one fresh block leaves every live file alone. */
  lemma BornWithBlock(ns: seq<Inode>, live: seq<bool>, d: Disk, owner: map<nat, Path>, lo: nat, hi: nat,
                      ino: nat, b: word, kind: byte)
    requires Owned(ns, live, View(d), owner, lo, hi) && ino < |ns| && !live[ino]
    requires lo <= b < hi && b !in owner
    ensures Owned(ns[ino := Volume.NewNode(b, kind)], live[ino := true], View(d), owner[b := Path(ino, 0, [])], lo, hi)
    ensures Unwritten(Image(ns, d), live, Image(ns[ino := Volume.NewNode(b, kind)], d))
  {
    var bare := Volume.NewNode(0, kind);
    var ns1, live1, p := ns[ino := bare], live[ino := true], Path(ino, 0, []);
    AddInode(ns, live, View(d), owner, lo, hi, ino, bare);
    LinkRoot(ns1, live1, View(d), owner, lo, hi, p, b);
    assert bare.roots[0 := b] == Volume.NewNode(b, kind).roots;
    assert SetRoot(ns1, ino, 0, b) == ns[ino := Volume.NewNode(b, kind)];
    forall i: nat, l: nat | i < |ns| && live[i] && l < MAX_LOGICAL
      ensures Ptr(ns[ino := Volume.NewNode(b, kind)], View(d), PathOf(i, l)) == Ptr(ns, View(d), PathOf(i, l))
    {
      assert LivePath(ns, live, PathOf(i, l)) && LivePath(ns1, live1, PathOf(i, l));
    }
  }

  class Volume {
    // Layout fixed when the volume is formatted (the superblock).
    const total: nat
    const dataStart: nat
    const bitmapSectors: nat

    // The sectors of the volume. The block bitmap, the inode bitmap and the inode table, which occupy
    // LBAs 1 to dataStart - 1, are held decoded in the three fields below.
    var disk: Disk
    var blockBits: seq<bool>
    var inodeBits: seq<bool>
    var inodes: seq<Inode>

    ghost var owner: map<nat, Path>
    ghost var entryOf: map<nat, Loc>

    /** An inode of zero bytes. */
    static ghost predicate Blank(n: Inode) {
      |n.roots| == ROOT_SLOTS && n.size == 0 && n.kind == 0 && forall s :: 0 <= s < ROOT_SLOTS ==> n.roots[s] == 0
    }

    /** The inode table after 64 of its sectors, four inodes each, were cleared. */
    static function Cleared(table: seq<Inode>): (r: seq<Inode>)
      requires WellFormed(table)
      ensures |r| == |table| && WellFormed(r) && forall i :: 256 <= i < |r| ==> r[i] == table[i]
      ensures forall i :: 0 <= i < |r| && i < 256 ==> Blank(r[i])
    {
      var blank := NewNode(0, 0);
      var r := seq(|table|, i requires 0 <= i < |table| => if i < 256 then blank else table[i]);
      assert forall i :: 0 <= i < |r| ==> r[i] == blank || r[i] == table[i];
      r
    }

    /** A volume as a mount finds it. */
    constructor Load(total: nat, dataStart: nat, bitmapSectors: nat, sectors: Disk, table: seq<Inode>,
                     inodeBits: seq<bool>, blockBits: seq<bool>, ghost owner: map<nat, Path>,
                     ghost entryOf: map<nat, Loc>)
      ensures this.total == total && this.dataStart == dataStart && this.bitmapSectors == bitmapSectors
      ensures disk == sectors && inodes == table && this.inodeBits == inodeBits && this.blockBits == blockBits
      ensures this.owner == owner && this.entryOf == entryOf
    {
      this.total, this.dataStart, this.bitmapSectors := total, dataStart, bitmapSectors;
      disk, inodes, this.inodeBits, this.blockBits := sectors, table, inodeBits, blockBits;
      this.owner, this.entryOf := owner, entryOf;
    }

    /**
     A quick format: the bitmaps are cleared, the metadata sectors are marked used, and the root directory is made.
     Only the first 64 sectors of the inode table are cleared, so `table` and `sectors` may hold anything else.
     */
    constructor Format(total: nat, sectors: Disk, table: seq<Inode>)
      requires 6 <= total < WORD_LIMIT && |sectors| == total
      requires WellFormed(table) && |table| == LayoutOf(total).inodeCount
      ensures this.total == total && dataStart == LayoutOf(total).dataStart && |inodes| == |table|
      ensures Consistent() && IsDir(ROOT_INODE) && NoEntries(Now(), ROOT_INODE)
      ensures forall b :: dataStart < b < total ==> !blockBits[b]
      ensures forall i :: 0 < i < |inodeBits| ==> !inodeBits[i]
      ensures inodes[ROOT_INODE].roots[0] != 0 && blockBits[dataStart]
      ensures forall i :: 0 < i < |inodes| && i < 256 ==> Blank(inodes[i])
      ensures forall i :: 256 <= i < |inodes| ==> inodes[i] == table[i]
    {
      LayoutFits(total);
      var g := LayoutOf(total);
      this.total := total;
      dataStart := g.dataStart;
      bitmapSectors := g.bitmapSectors;
      disk := sectors;
      blockBits := seq(BITS_PER_SECTOR * g.bitmapSectors, b => b < g.dataStart);
      inodes := Cleared(table);
      inodeBits := seq(|table|, i => false);
      owner := map[];
      entryOf := map[];
      new;
      CreateRoot();
    }

    /** Makes the root directory on a volume where nothing is in use yet. */
    method CreateRoot()
      requires Geometry() && WellFormed(inodes) && 0 < |inodes| == |inodeBits| && |inodes| < WORD_LIMIT
      requires owner == map[]
      requires dataStart < total && forall b :: dataStart <= b < total ==> !blockBits[b]
      requires forall i :: 0 <= i < |inodeBits| ==> !inodeBits[i]
      modifies this
      ensures |inodes| == old(|inodes|) && forall i :: 0 < i < |inodes| ==> inodes[i] == old(inodes)[i]
      ensures Consistent() && IsDir(ROOT_INODE) && NoEntries(Now(), ROOT_INODE)
      ensures forall b :: dataStart < b < total ==> !blockBits[b]
      ensures forall i :: 0 < i < |inodeBits| ==> !inodeBits[i]
      ensures inodes[ROOT_INODE].roots[0] != 0 && blockBits[dataStart]
    {
      inodeBits := inodeBits[ROOT_INODE := true];
      assert !blockBits[dataStart];
      var b := AllocBlock();
      BornWithBlock(inodes, old(inodeBits), disk, owner, dataStart, total, ROOT_INODE, b, KIND_DIR);
      owner := owner[b := Path(ROOT_INODE, 0, [])];
      inodes := inodes[ROOT_INODE := NewNode(b, KIND_DIR)];
      ClearFirstBlock(ROOT_INODE, b);
    }

    ghost predicate Geometry()
      reads this
    {
      && 1 < dataStart <= total < WORD_LIMIT
      && |disk| == total
      && total <= |blockBits| == BITS_PER_SECTOR * bitmapSectors
    }

    /** Every block bit of the data area is set exactly for the blocks that live inodes reach. */
    ghost predicate Valid()
      reads this
    {
      && Geometry()
      && Owned(inodes, inodeBits, View(disk), owner, dataStart, total)
      && (forall b :: dataStart <= b < total ==> (blockBits[b] <==> b in owner))
    }

    ghost function Now(): Image
      reads this
    {
      Image(inodes, disk)
    }

    predicate IsLive(ino: nat)
      reads this
    {
      ino < |inodes| && ino < |inodeBits| && inodeBits[ino]
    }

    /** The free blocks of the data area. */
    ghost function FreeBlocks(): set<nat>
      reads this
    {
      FreeIn(blockBits, dataStart, total)
    }

    /** Sector 0 is zeroed, or as it was. */
    ghost predicate SuperblockIs(d: Disk, zeroed: bool)
      reads this
    {
      |disk| == |d| && (0 < |d| ==> disk[0] == if zeroed then ZeroSector() else d[0])
    }

    /** Takes the lowest free block of the data area; 0 means there is none. */
    method AllocBlock() returns (b: word)
      requires Geometry()
      modifies this`blockBits
      ensures Geometry()
      ensures b == 0 ==> blockBits == old(blockBits) && forall x :: dataStart <= x < total ==> blockBits[x]
      ensures b != 0 ==>
        && dataStart <= b < total && !old(blockBits[b])
        && (forall x :: dataStart <= x < b ==> old(blockBits[x]))
        && blockBits == old(blockBits)[b := true]
    {
      var startIdx := if dataStart > 1 then dataStart else 1;
      var startSector := startIdx / 8 / SECTOR_SIZE;
      var sector := startSector;
      while sector < bitmapSectors
        invariant startSector <= sector
        invariant blockBits == old(blockBits)
        invariant forall x :: startIdx <= x < BITS_PER_SECTOR * sector && x < total ==> blockBits[x]
      {
        var baseIdx := BITS_PER_SECTOR * sector;
        var bit := if sector == startSector && startIdx > baseIdx then startIdx - baseIdx else 0;
        while bit < BITS_PER_SECTOR
          invariant 0 <= bit <= BITS_PER_SECTOR && startIdx <= baseIdx + bit
          invariant blockBits == old(blockBits)
          invariant forall x :: startIdx <= x < baseIdx + bit && x < total ==> blockBits[x]
        {
          var idx := baseIdx + bit;
          if idx >= total {
            return 0;
          }
          if !blockBits[idx] {
            blockBits := blockBits[idx := true];
            return idx;
          }
          bit := bit + 1;
        }
        sector := sector + 1;
      }
      return 0;
    }

    /** What linking in a block at `p` promises; `old` values are passed in. */
    ghost predicate Step(ns: seq<Inode>, live: seq<bool>, d: Disk, own: map<nat, Path>, target: Path)
      reads this
    {
      && Valid()
      && inodeBits == live
      && Grown(ns, live, View(d), own, inodes, View(disk), owner, target)
      && DataKept(own, d, disk)
    }

    ghost predicate SinceThen(was: Snapshot, target: Path)
      reads this
    {
      match was
      case Snapshot(ns, live, d, own) => Step(ns, live, d, own, target)
    }

    ghost predicate Full()
      reads this
      requires Geometry()
    {
      forall b :: dataStart <= b < total ==> blockBits[b]
    }

    /** The superblock sector survives, unless a table could not be allocated and sector 0 was zeroed instead. */
    ghost predicate SuperblockKept(d: Disk, b: word)
      reads this
    {
      |disk| == |d| && (0 < |d| ==> disk[0] == d[0] || (b == 0 && disk[0] == ZeroSector()))
    }

    /** The root pointer in `slot`, allocated on demand. */
    method RootBlock(ino: nat, node: Inode, slot: nat, doAlloc: bool) returns (b: word, node': Inode)
      requires Valid() && IsLive(ino) && node == inodes[ino] && slot < ROOT_SLOTS
      modifies this
      ensures inodeBits == old(inodeBits) && entryOf == old(entryOf)
      ensures SinceThen(old(Snapshot(inodes, inodeBits, disk, owner)), Path(ino, slot, []))
      ensures node' == inodes[ino] && b == Ptr(inodes, View(disk), Path(ino, slot, []))
      ensures node' == node.(roots := node.roots[slot := b])
      ensures SuperblockIs(old(disk), doAlloc && b == 0 && slot >= INODE_DIRECT)
      ensures !doAlloc || old(inodes[ino].roots[slot]) != 0 ==>
        inodes == old(inodes) && disk == old(disk) && blockBits == old(blockBits) && owner == old(owner)
      ensures doAlloc && b == 0 ==> Full()
      ensures doAlloc && old(inodes[ino].roots[slot]) == 0 ==>
        (b == 0 <==> |old(FreeBlocks())| == 0) && (b != 0 ==> |FreeBlocks()| == |old(FreeBlocks())| - 1)
    {
      node' := node;
      b := node.roots[slot];
      if node.roots[slot] == 0 && doAlloc {
        b, node' := NewRoot(ino, node, slot);
      } else {
        GrownRefl(inodes, inodeBits, View(disk), owner, dataStart, total, Path(ino, slot, []));
      }
    }

    /** A block for a null root pointer, 0 if there is none. */
    method NewRoot(ino: nat, node: Inode, slot: nat) returns (b: word, node': Inode)
      requires Valid() && IsLive(ino) && node == inodes[ino] && slot < ROOT_SLOTS && node.roots[slot] == 0
      modifies this
      ensures inodeBits == old(inodeBits) && entryOf == old(entryOf)
      ensures SinceThen(old(Snapshot(inodes, inodeBits, disk, owner)), Path(ino, slot, []))
      ensures node' == inodes[ino] == node.(roots := node.roots[slot := b])
      ensures SuperblockIs(old(disk), b == 0 && slot >= INODE_DIRECT) && (b == 0 ==> Full())
      ensures (b == 0 <==> |old(FreeBlocks())| == 0) && (b != 0 ==> |FreeBlocks()| == |old(FreeBlocks())| - 1)
    {
      ghost var p := Path(ino, slot, []);
      b := AllocBlock();
      BlockTaken(old(blockBits), dataStart, total, b);
      ViewZero(disk, b);
      if b != 0 {
        LinkRootStep(inodes, inodeBits, View(disk), owner, dataStart, total, p, b);
        owner := owner[b := p];
      } else {
        ZeroSuperblock(inodes, inodeBits, View(disk), owner, dataStart, total, p);
        assert node.roots[slot := b] == node.roots && inodes[ino := node] == inodes;
      }
      if slot >= INODE_DIRECT {
        disk := disk[b := ZeroSector()];
      }
      node' := node.(roots := node.roots[slot := b]);
      inodes := inodes[ino := node'];
      BitTaken(old(blockBits), old(owner), blockBits, owner, dataStart, total, b, p);
    }

    /** Entry `i` of the table that `p` points to, allocated on demand. */
    method TableEntry(table: word, i: nat, isTable: bool, doAlloc: bool, ghost p: Path, ghost was: Snapshot)
      returns (b: word)
      requires LivePath(inodes, inodeBits, p) && !Leaf(p) && i < PTRS_PER_BLOCK
      requires isTable <==> !Leaf(Child(p, i))
      requires SinceThen(was, p) && |was.disk| == |disk| && 0 < |disk| && disk[0] == was.disk[0]
      requires table == Ptr(inodes, View(disk), p) != 0
      modifies this`disk, this`blockBits, this`owner
      ensures SinceThen(was, Child(p, i))
      ensures b == Ptr(inodes, View(disk), Child(p, i))
      ensures SuperblockIs(was.disk, doAlloc && b == 0 && isTable)
      ensures !doAlloc || Ptr(inodes, View(old(disk)), Child(p, i)) != 0 ==>
        disk == old(disk) && blockBits == old(blockBits) && owner == old(owner)
      ensures doAlloc && b == 0 ==> Full()
      ensures doAlloc && Ptr(inodes, View(old(disk)), Child(p, i)) == 0 ==>
        && Grown(inodes, inodeBits, View(old(disk)), old(owner), inodes, View(disk), owner, Child(p, i))
        && (b == 0 <==> |old(FreeBlocks())| == 0) && (b != 0 ==> |FreeBlocks()| == |old(FreeBlocks())| - 1)
    {
      var ptrs := LoadPtrs(disk[table]);
      PtrOfChild(inodes, View(disk), p, i);
      b := ptrs[i];
      if ptrs[i] == 0 && doAlloc {
        b := NewEntry(table, ptrs, i, isTable, p);
        GrownTransitive(was.inodes, was.inodeBits, View(was.disk), was.owner, inodes, View(old(disk)), old(owner),
                        inodes, View(disk), owner, p, Child(p, i));
      } else {
        GrownWeaken(was.inodes, was.inodeBits, View(was.disk), was.owner, inodes, View(disk), owner, p, Child(p, i));
      }
    }

    /** Below a null pointer there is nothing to follow. */
    lemma NullBelow(idx: seq<nat>, p: Path, was: Snapshot)
      requires LivePath(inodes, inodeBits, p) && LivePath(inodes, inodeBits, Extend(p, idx))
      requires SinceThen(was, p) && Ptr(inodes, View(disk), p) == 0
      ensures SinceThen(was, Extend(p, idx)) && Ptr(inodes, View(disk), Extend(p, idx)) == 0
    {
      ExtendStep(p, idx);
      if idx != [] {
        NothingBelowNull(inodes, View(disk), p, Extend(p, idx));
        GrownWeaken(was.inodes, was.inodeBits, View(was.disk), was.owner, inodes, View(disk), owner, p, Extend(p, idx));
      }
    }

    method NewEntry(table: word, ptrs: Table, i: nat, isTable: bool, ghost p: Path) returns (b: word)
      requires Valid() && LivePath(inodes, inodeBits, p) && !Leaf(p) && i < PTRS_PER_BLOCK
      requires isTable <==> !Leaf(Child(p, i))
      requires table == Ptr(inodes, View(disk), p) != 0 && Ptr(inodes, View(disk), Child(p, i)) == 0
      requires table < |disk| && ptrs == LoadPtrs(disk[table])
      modifies this`disk, this`blockBits, this`owner
      ensures SinceThen(old(Snapshot(inodes, inodeBits, disk, owner)), Child(p, i))
      ensures b == Ptr(inodes, View(disk), Child(p, i))
      ensures SuperblockIs(old(disk), b == 0 && isTable)
      ensures b == 0 ==> Full()
      ensures (b == 0 <==> |old(FreeBlocks())| == 0) && (b != 0 ==> |FreeBlocks()| == |old(FreeBlocks())| - 1)
    {
      b := AllocBlock();
      BlockTaken(old(blockBits), dataStart, total, b);
      StoreEntry(table, ptrs, i, b, isTable);
      owner := if b != 0 then owner[b := Child(p, i)] else owner;
      EntryOutcome(inodes, inodeBits, old(disk), old(owner), dataStart, total, p, i, b, disk, owner);
      BitTaken(old(blockBits), old(owner), blockBits, owner, dataStart, total, b, Child(p, i));
    }

    /** Writes a table with one entry changed; what the entry points to is zeroed first if it is a table. */
    method StoreEntry(table: word, ptrs: Table, i: nat, b: word, isTable: bool)
      requires table < |disk| && b < |disk| && i < PTRS_PER_BLOCK && ptrs == LoadPtrs(disk[table])
      modifies this`disk
      ensures disk == EntryWritten(old(disk), table, i, b, isTable)
    {
      if isTable {
        disk := disk[b := ZeroSector()];
      }
      disk := disk[table := StorePtrs(ptrs[i := b])];
    }

    /** Goes down from the pointer `b` at `p` through the table indices `idx`, stopping at a null pointer. */
    method Descend(b: word, idx: seq<nat>, doAlloc: bool, ghost p: Path, ghost q: Path, ghost was: Snapshot,
                   ghost lack: bool)
      returns (r: word)
      requires LivePath(inodes, inodeBits, p) && LivePath(inodes, inodeBits, q) && Leaf(q) && q == Extend(p, idx)
      requires SinceThen(was, p) && 0 < |disk|
      requires b == Ptr(inodes, View(disk), p) && (doAlloc && b == 0 ==> Full())
      requires SuperblockIs(was.disk, doAlloc && b == 0 && !Leaf(p))
      requires doAlloc ==>
        lack == if b == 0 then idx != [] else |FreeBlocks()| < Missing(inodes, View(disk), p, idx)
      modifies this`disk, this`blockBits, this`owner
      ensures SinceThen(was, q)
      ensures r == Ptr(inodes, View(disk), q)
      ensures SuperblockKept(was.disk, r)
      ensures !doAlloc ==> disk == old(disk) && blockBits == old(blockBits) && owner == old(owner)
      ensures doAlloc && r == 0 ==> Full()
      ensures SuperblockIs(was.disk, doAlloc && lack)
      decreases |idx|
    {
      ExtendStep(p, idx);
      if idx == [] {
        return b;
      }
      if b == 0 {
        NullBelow(idx, p, was);
        return 0;
      }
      var b' := EnterTable(b, idx, doAlloc, p, was, lack);
      r := Descend(b', idx[1..], doAlloc, Child(p, idx[0]), q, was, lack);
    }

    /** One level down. The tables that are still missing stand to the free blocks as they did before. */
    method EnterTable(b: word, idx: seq<nat>, doAlloc: bool, ghost p: Path, ghost was: Snapshot, ghost lack: bool)
      returns (r: word)
      requires LivePath(inodes, inodeBits, p) && LivePath(inodes, inodeBits, Extend(p, idx)) && Leaf(Extend(p, idx))
      requires idx != [] && !Leaf(p) && idx[0] < PTRS_PER_BLOCK && LivePath(inodes, inodeBits, Child(p, idx[0]))
      requires SinceThen(was, p) && |was.disk| == |disk| && 0 < |disk| && disk[0] == was.disk[0]
      requires b == Ptr(inodes, View(disk), p) != 0 && Extend(Child(p, idx[0]), idx[1..]) == Extend(p, idx)
      requires doAlloc ==> lack == (|FreeBlocks()| < Missing(inodes, View(disk), p, idx))
      modifies this`disk, this`blockBits, this`owner
      ensures SinceThen(was, Child(p, idx[0]))
      ensures r == Ptr(inodes, View(disk), Child(p, idx[0]))
      ensures SuperblockIs(was.disk, doAlloc && r == 0 && |idx| > 1)
      ensures !doAlloc ==> disk == old(disk) && blockBits == old(blockBits) && owner == old(owner)
      ensures doAlloc && r == 0 ==> Full()
      ensures doAlloc ==>
        lack == if r == 0 then |idx| > 1 else |FreeBlocks()| < Missing(inodes, View(disk), Child(p, idx[0]), idx[1..])
    {
      r := TableEntry(b, idx[0], |idx| > 1, doAlloc, p, was);
      if doAlloc {
        MissingAfterStep(inodes, inodeBits, View(old(disk)), old(owner), View(disk), owner, p, idx, r,
                         |old(FreeBlocks())|, |FreeBlocks()|);
      }
    }

    /** The root pointer on the way to `q`; `lack` says whether there are fewer free blocks than missing tables. */
    method EnterRoot(ino: nat, node: Inode, slot: nat, doAlloc: bool, ghost q: Path, ghost was: Snapshot,
                     ghost lack: bool)
      returns (b: word, node': Inode)
      requires Valid() && IsLive(ino) && node == inodes[ino] && was == Snapshot(inodes, inodeBits, disk, owner)
      requires Proper(q, |inodes|) && q.ino == ino && q.slot == slot
      requires lack == (|FreeBlocks()| < MissingTables(inodes, View(disk), q))
      modifies this
      ensures inodeBits == old(inodeBits) && entryOf == old(entryOf)
      ensures SinceThen(was, Path(ino, slot, [])) && node' == inodes[ino] && Extend(Path(ino, slot, []), q.idx) == q
      ensures b == Ptr(inodes, View(disk), Path(ino, slot, [])) && (doAlloc && b == 0 ==> Full())
      ensures SuperblockIs(was.disk, doAlloc && b == 0 && slot >= INODE_DIRECT)
      ensures !doAlloc ==>
        inodes == old(inodes) && disk == old(disk) && blockBits == old(blockBits) && owner == old(owner)
      ensures doAlloc ==> lack == if b == 0 then q.idx != []
                                  else |FreeBlocks()| < Missing(inodes, View(disk), Path(ino, slot, []), q.idx)
    {
      assert Extend(Path(ino, slot, []), q.idx) == q;
      b, node' := RootBlock(ino, node, slot, doAlloc);
      if doAlloc {
        MissingAfterRoot(was.inodes, inodeBits, View(was.disk), was.owner, inodes, View(disk), owner,
                         Path(ino, slot, []), q, b, |old(FreeBlocks())|, |FreeBlocks()|);
      }
    }

    method Indirect(ino: nat, node: Inode, slot: nat, idx: seq<nat>, doAlloc: bool) returns (b: word, node': Inode)
      requires Valid() && IsLive(ino) && node == inodes[ino]
      requires Proper(Path(ino, slot, idx), |inodes|) && Leaf(Path(ino, slot, idx))
      modifies this
      ensures inodeBits == old(inodeBits) && entryOf == old(entryOf)
      ensures SinceThen(old(Snapshot(inodes, inodeBits, disk, owner)), Path(ino, slot, idx))
      ensures node' == inodes[ino] && b == Ptr(inodes, View(disk), Path(ino, slot, idx))
      ensures SuperblockKept(old(disk), b)
      ensures SuperblockIs(old(disk), doAlloc &&
        |old(FreeBlocks())| < MissingTables(old(inodes), View(old(disk)), Path(ino, slot, idx)))
      ensures !doAlloc ==>
        inodes == old(inodes) && disk == old(disk) && blockBits == old(blockBits) && owner == old(owner)
      ensures doAlloc && b == 0 ==> Full()
    {
      ghost var was, p := Snapshot(inodes, inodeBits, disk, owner), Path(ino, slot, idx);
      ghost var lack := |FreeBlocks()| < MissingTables(inodes, View(disk), p);
      b, node' := EnterRoot(ino, node, slot, doAlloc, p, was, lack);
      assert LivePath(inodes, inodeBits, Path(ino, slot, [])) && LivePath(inodes, inodeBits, p);
      b := Descend(b, idx, doAlloc, Path(ino, slot, []), p, was, lack);
    }

    /**
     The block that holds block `l` of a file, allocated on demand along with the tables on the way to it.
     The result is 0 past the end of the addressing range, for an unmapped block, or when the volume is full.
     */
    method GetPhysicalBlock(ino: nat, node: Inode, l: nat, doAlloc: bool) returns (b: word, node': Inode)
      requires Valid() && IsLive(ino) && node == inodes[ino]
      modifies this
      ensures inodeBits == old(inodeBits) && entryOf == old(entryOf)
      ensures Valid() && |inodes| == old(|inodes|)
      ensures node' == inodes[ino]
      ensures l < MAX_LOGICAL ==>
        && Step(old(inodes), old(inodeBits), old(disk), old(owner), PathOf(ino, l))
        && b == Ptr(inodes, View(disk), PathOf(ino, l))
        && (doAlloc && b == 0 ==> Full())
      ensures l >= MAX_LOGICAL ==> b == 0
      ensures l >= MAX_LOGICAL || !doAlloc ==>
        inodes == old(inodes) && disk == old(disk) && blockBits == old(blockBits) && owner == old(owner)
      ensures SuperblockKept(old(disk), b)
      ensures SuperblockIs(old(disk), doAlloc && l < MAX_LOGICAL &&
        |old(FreeBlocks())| < MissingTables(old(inodes), View(old(disk)), PathOf(ino, l)))
    {
      if l >= MAX_LOGICAL {
        return 0, node;
      }
      var p := PathOf(ino, l);
      b, node' := Indirect(ino, node, p.slot, p.idx, doAlloc);
    }

    /** One turn of the write loop: map block `l`, read it unless it is overwritten whole, and write it back. */
    method WriteBlock(ino: nat, node: Inode, l: nat, off: nat, chunk: seq<byte>, oldBuf: Sector)
      returns (phys: word, node': Inode, buf: Sector)
      requires Valid() && IsLive(ino) && node == inodes[ino]
      requires 0 < |chunk| && off + |chunk| <= SECTOR_SIZE
      modifies this
      ensures inodeBits == old(inodeBits) && entryOf == old(entryOf)
      ensures Valid()
      ensures OnlyRoots(old(inodes), inodes, ino) && node' == inodes[ino]
      ensures phys == 0 ==> l >= MAX_LOGICAL || Full()
      ensures phys != 0 ==> BlockWritten(old(Now()), inodeBits, Now(), ino, l, off, chunk)
      ensures phys == 0 ==> Unwritten(old(Now()), inodeBits, Now())
      ensures phys != 0 ==> disk[0] == old(disk[0]) && l < MAX_LOGICAL
      ensures if l < MAX_LOGICAL then TookFor(old(owner), owner, ino, l, phys != 0) else owner == old(owner)
    {
      phys, node' := GetPhysicalBlock(ino, node, l, true);
      if l < MAX_LOGICAL {
        GrownTook(old(inodes), inodeBits, View(old(disk)), old(owner), inodes, View(disk), owner, dataStart, total,
                  PathOf(ino, l));
      }
      buf := oldBuf;
      if phys == 0 {
        if l < MAX_LOGICAL {
          FailedWrite(old(inodes), inodeBits, old(disk), old(owner), inodes, disk, owner, dataStart, total, ino, l);
        }
        return;
      }
      if off > 0 || |chunk| < SECTOR_SIZE {
        buf := disk[phys];
      }
      buf := Overwrite(buf, off, chunk);
      BlockWrite(old(inodes), inodeBits, old(disk), old(owner), inodes, disk, owner, dataStart, total,
                 ino, l, phys, buf, off, chunk);
      disk := disk[phys := buf];
    }

    /** Block number and offset in the block of a file position; positions are 32 bits wide. */
    static method Locate(offset: word, done: nat) returns (l: nat, off: nat)
      ensures (offset + done) % WORD_LIMIT == SECTOR_SIZE * l + off && off < SECTOR_SIZE
      ensures offset + done < WORD_LIMIT ==> offset + done == SECTOR_SIZE * l + off
    {
      var current := (offset + done) % WORD_LIMIT;
      l, off := current / SECTOR_SIZE, current % SECTOR_SIZE;
    }

    static method Piece(offset: word, done: nat, all: nat) returns (l: nat, off: nat, n: nat)
      requires done < all && offset + done < WORD_LIMIT
      ensures IsPiece(offset, done, all, l, off, n)
    {
      l, off := Locate(offset, done);
      n := ChunkSize(off, all - done);
    }

    /** Writes the next part of `data`. A count of 0 says that its block could not be mapped. */
    method WriteChunk(ino: nat, node: Inode, offset: word, data: seq<byte>, written: nat, buf: Sector)
      returns (c: nat, node': Inode, buf': Sector, ghost l: nat, ghost off: nat, ghost n: nat)
      requires Valid() && IsLive(ino) && node == inodes[ino]
      requires written < |data| && offset + written < WORD_LIMIT
      modifies this
      ensures inodeBits == old(inodeBits) && entryOf == old(entryOf)
      ensures Valid() && OnlyRoots(old(inodes), inodes, ino) && node' == inodes[ino]
      ensures IsPiece(offset, written, |data|, l, off, n) && (c == 0 || c == n)
      ensures if c > 0 then BlockWritten(old(Now()), inodeBits, Now(), ino, l, off, data[written..written + n])
              else Unwritten(old(Now()), inodeBits, Now())
      ensures if c > 0 then l < MAX_LOGICAL && disk[0] == old(disk[0]) else l >= MAX_LOGICAL || Full()
      ensures if l < MAX_LOGICAL then TookFor(old(owner), owner, ino, l, c > 0) else owner == old(owner)
    {
      var block, inBlock, size := Piece(offset, written, |data|);
      var phys;
      phys, node', buf' := WriteBlock(ino, node, block, inBlock, data[written..written + size], buf);
      c, l, off, n := if phys == 0 then 0 else size, block, inBlock, size;
    }

    method WriteTurn(ino: nat, node: Inode, offset: word, data: seq<byte>, written: nat, buf: Sector,
                     ghost was: Image, ghost own: map<nat, Path>, ghost next: nat)
      returns (written': nat, node': Inode, buf': Sector, ghost next': nat)
      requires Valid() && IsLive(ino) && node == inodes[ino] && written < |data|
      requires WrittenSo(was, Now(), inodeBits, ino, offset, data, written)
      requires SpentBy(own, owner, ino, offset, written, next, |data|)
      modifies this
      ensures inodeBits == old(inodeBits) && entryOf == old(entryOf)
      ensures Valid() && IsLive(ino) && node' == inodes[ino] && written <= written'
      ensures WrittenSo(was, Now(), inodeBits, ino, offset, data, written')
      ensures
        if written' > written then SpentBy(own, owner, ino, offset, written', next', |data|) && disk[0] == old(disk[0])
        else
          && SpentAll(own, owner, ino, offset, |data|, false)
          && (SECTOR_SIZE * MAX_LOGICAL <= offset + written || Full())
    {
      var c;
      ghost var l, off, n;
      c, node', buf', l, off, n := WriteChunk(ino, node, offset, data, written, buf);
      written', next' := written + c, l + 1;
      WrittenOn(was, old(Now()), inodeBits, Now(), ino, offset, data, written, next, l, off, n, written');
      SpentTurn(own, old(owner), owner, ino, offset, written, written', next, l, off, n, next', |data|);
    }

    /** The write loop; it stops early when a block cannot be mapped. */
    method WriteLoop(ino: nat, offset: word, data: seq<byte>) returns (node: Inode, written: nat)
      requires Valid() && IsLive(ino) && |data| < WORD_LIMIT
      modifies this
      ensures inodeBits == old(inodeBits) && entryOf == old(entryOf)
      ensures Valid()
      ensures Wrote(old(Now()), inodeBits, Now(), ino, offset, data, written)
      ensures written <= |data| && offset + written < WORD_LIMIT
      ensures written < |data| ==> SECTOR_SIZE * MAX_LOGICAL <= offset + written || Full()
      ensures OnlyRoots(old(inodes), inodes, ino) && node == inodes[ino]
      ensures written == |data| ==> disk[0] == old(disk[0])
      ensures SpentAll(old(owner), owner, ino, offset, |data|, written == |data|)
    {
      node := inodes[ino];
      written := 0;
      var buf: Sector := ZeroSector();
      ghost var next := EndBlock(offset, 0);
      while written < |data|
        invariant inodeBits == old(inodeBits) && entryOf == old(entryOf)
        invariant written <= |data| && Valid() && IsLive(ino) && node == inodes[ino]
        invariant WrittenSo(old(Now()), Now(), inodeBits, ino, offset, data, written)
        invariant SpentBy(old(owner), owner, ino, offset, written, next, |data|) && disk[0] == old(disk[0])
        invariant written == 0 ==> owner == old(owner)
      {
        var before := written;
        written, node, buf, next := WriteTurn(ino, node, offset, data, written, buf, old(Now()), old(owner), next);
        if written == before {
          return;
        }
      }
    }

    /** A write is done exactly if enough blocks were free for what it had to allocate. */
    lemma RoomFor(was: Image, bits: seq<bool>, own: map<nat, Path>, ino: nat, offset: nat, n: nat, done: bool)
      requires Valid() && IsLive(ino) && |was.ns| == |inodes| && |bits| == |blockBits|
      requires Owned(was.ns, inodeBits, View(was.d), own, dataStart, total)
      requires forall x :: dataStart <= x < total ==> (bits[x] <==> x in own)
      requires SpentAll(own, owner, ino, offset, n, done) && (done || !Addressable(offset, n) || Full())
      ensures done <==> Fits(was, |FreeIn(bits, dataStart, total)|, ino, offset, n)
      ensures done ==> |FreeBlocks()| == |FreeIn(bits, dataStart, total)| - BlocksNeeded(was, ino, offset, n)
    {
      if Addressable(offset, n) {
        FreeOrOwned(bits, own, dataStart, total);
        FreeOrOwned(blockBits, owner, dataStart, total);
        if n > 0 {
          var a, b := offset / SECTOR_SIZE, EndBlock(offset, n);
          LackingIsNotOwned(was.ns, inodeBits, View(was.d), own, dataStart, total, ino, a, b);
          assert Full() ==> FreeBlocks() == {};
          RoomExactly(own, owner, ino, a, b, total - dataStart);
        }
      }
    }

    /** The bytes of a write, without the size; all are written exactly if there are enough free blocks. */
    method WriteBytes(ino: nat, offset: word, data: seq<byte>) returns (node: Inode, written: nat)
      requires Valid() && IsLive(ino) && |data| < WORD_LIMIT
      modifies this
      ensures inodeBits == old(inodeBits) && entryOf == old(entryOf)
      ensures Valid()
      ensures Wrote(old(Now()), inodeBits, Now(), ino, offset, data, written)
      ensures written <= |data| && offset + written < WORD_LIMIT
      ensures written < |data| ==> SECTOR_SIZE * MAX_LOGICAL <= offset + written || Full()
      ensures OnlyRoots(old(inodes), inodes, ino) && node == inodes[ino]
      ensures written == |data| ==> disk[0] == old(disk[0])
      ensures written == |data| <==> Fits(old(Now()), |old(FreeBlocks())|, ino, offset, |data|)
      ensures written == |data| ==>
        |FreeBlocks()| == |old(FreeBlocks())| - BlocksNeeded(old(Now()), ino, offset, |data|)
    {
      node, written := WriteLoop(ino, offset, data);
      RoomFor(old(Now()), old(blockBits), old(owner), ino, offset, |data|, written == |data|);
    }

    /**
     Writes `data` at `offset`. The ghost result `w` is how much was written before the loop ended; it is all of
     `data` exactly when the call succeeds. No assumption keeps `offset + |data|` below 2^32.
     */
    method Write(ino: nat, offset: word, data: seq<byte>) returns (r: int, ghost w: nat)
      requires Valid() && IsLive(ino) && |data| < WORD_LIMIT
      modifies this
      ensures inodeBits == old(inodeBits) && entryOf == old(entryOf)
      ensures Valid()
      ensures Wrote(old(Now()), inodeBits, Now(), ino, offset, data, w)
      ensures if r < 0 then w < |data| && r == -1 else r == w == |data|
      ensures r < 0 ==> SECTOR_SIZE * MAX_LOGICAL <= offset + w || Full()
      ensures r >= 0 <==> Fits(old(Now()), |old(FreeBlocks())|, ino, offset, |data|)
      ensures r >= 0 ==> |FreeBlocks()| == |old(FreeBlocks())| - BlocksNeeded(old(Now()), ino, offset, |data|)
      ensures inodes[ino].kind == old(inodes[ino].kind)
      ensures inodes[ino].size ==
        if r >= 0 && offset + |data| > old(inodes[ino].size) then offset + |data| else old(inodes[ino].size)
      ensures forall i :: 0 <= i < |inodes| && i != ino ==> inodes[i] == old(inodes)[i]
      ensures r >= 0 ==> disk[0] == old(disk[0])
    {
      var node, written := WriteBytes(ino, offset, data);
      if written < |data| {
        return -1, written;
      }
      if (offset + written) % WORD_LIMIT > node.size {
        SetSize(ino, node, offset + written, old(Now()), offset, data, written);
      }
      return written, written;
    }

    /** Stores an inode with a new size. */
    method SetSize(ino: nat, node: Inode, size: word, ghost was: Image, ghost offset: word, ghost data: seq<byte>,
                   ghost w: nat)
      requires Valid() && IsLive(ino) && node == inodes[ino] && w <= |data| && offset + w < WORD_LIMIT
      requires Wrote(was, inodeBits, Now(), ino, offset, data, w)
      modifies this`inodes
      ensures Valid() && inodes == old(inodes)[ino := node.(size := size)]
      ensures Wrote(was, inodeBits, Now(), ino, offset, data, w)
    {
      ResizeFrame(inodes, inodeBits, disk, owner, dataStart, total, ino, size);
      ghost var before := Now();
      inodes := inodes[ino := node.(size := size)];
      assert Now() == Image(before.ns[ino := before.ns[ino].(size := size)], before.d);
      WroteNothingMore(was, inodeBits, before, Now(), ino, offset, data, w);
    }

    /** How many bytes a read returns; the end of the range is computed in 32 bits. */
    static function ReadCount(fileSize: word, offset: word, size: word): nat {
      if offset >= fileSize then 0
      else if (offset + size) % WORD_LIMIT > fileSize then fileSize - offset
      else size
    }

    /**
     A read stops at the end of the file exactly if offset and size do not wrap around in 32 bits, or the offset is past
     the end; otherwise it goes on behind the end, and from 2^32 on at the beginning of the file.
     */
    static lemma ReadStopsAtEnd(fileSize: word, offset: word, size: word)
      ensures
        var rest := if offset < fileSize then fileSize - offset else 0;
        ReadCount(fileSize, offset, size) == (if size < rest then size else rest) <==>
          offset + size < WORD_LIMIT || offset >= fileSize
      ensures offset < fileSize && offset + size >= WORD_LIMIT ==> ReadCount(fileSize, offset, size) == size
    {
      if offset + size >= WORD_LIMIT {
        assert (offset + size) % WORD_LIMIT == offset + size - WORD_LIMIT;
      }
    }

    /** One sector of a file, zeros if it is unmapped. */
    method ReadBlock(ino: nat, node: Inode, l: nat) returns (sector: Sector)
      requires Valid() && IsLive(ino) && node == inodes[ino]
      modifies this
      ensures inodeBits == old(inodeBits) && entryOf == old(entryOf)
      ensures inodes == old(inodes) && disk == old(disk) && blockBits == old(blockBits) && owner == old(owner)
      ensures forall k: nat :: k < SECTOR_SIZE ==> sector[k] == Byte(Now(), ino, l, k)
    {
      var phys, _ := GetPhysicalBlock(ino, node, l, false);
      if phys == 0 {
        sector := ZeroSector();
      } else {
        sector := disk[phys];
      }
    }

    /** Reads a range of a file and changes nothing. Positions wrap at 2^32, as they do in the source. */
    method Read(ino: nat, node: Inode, offset: word, size: word) returns (buffer: seq<byte>)
      requires Valid() && IsLive(ino) && node == inodes[ino]
      modifies this
      ensures inodeBits == old(inodeBits) && entryOf == old(entryOf)
      ensures inodes == old(inodes) && disk == old(disk) && blockBits == old(blockBits) && owner == old(owner)
      ensures |buffer| == ReadCount(node.size, offset, size)
      ensures HasRead(Now(), ino, offset, buffer)
    {
      buffer := [];
      var n := ReadCount(node.size, offset, size);
      while |buffer| < n
        invariant |buffer| <= n && inodeBits == old(inodeBits) && entryOf == old(entryOf)
        invariant inodes == old(inodes) && disk == old(disk) && blockBits == old(blockBits) && owner == old(owner)
        invariant HasRead(Now(), ino, offset, buffer)
      {
        var blockIndex, inBlock := Locate(offset, |buffer|);
        var sector := ReadBlock(ino, node, blockIndex);
        var c := ChunkSize(inBlock, n - |buffer|);
        ReadMore(Now(), ino, offset, buffer, blockIndex, inBlock, sector, c);
        buffer := buffer + sector[inBlock..inBlock + c];
      }
    }

    method FreeBlock(idx: word)
      requires Geometry()
      modifies this`blockBits
      ensures blockBits == if idx < total then old(blockBits)[idx := false] else old(blockBits)
    {
      if idx >= total {
        return;
      }
      blockBits := blockBits[idx := false];
    }

    ghost predicate Linked()
      reads this
    {
      Geometry() && Owned(inodes, inodeBits, View(disk), owner, dataStart, total)
    }

    /** Frees the block at `p` and everything below it, and no other block. */
    method FreeIndirectTree(b: word, depth: nat, ghost p: Path)
      requires Linked() && LivePath(inodes, inodeBits, p) && |p.idx| + depth == Depth(p.slot)
      requires b == Ptr(inodes, View(disk), p)
      modifies this`blockBits
      ensures |blockBits| == old(|blockBits|)
      ensures forall x :: 0 <= x < |blockBits| ==>
        (blockBits[x] <==> old(blockBits)[x] && !(x in owner && IsPrefix(p, owner[x])))
      decreases depth, 1
    {
      if b == 0 {
        NothingOwnedBelow(inodes, inodeBits, View(disk), owner, dataStart, total, p);
        return;
      }
      SelfOrBelow(inodes, inodeBits, View(disk), owner, dataStart, total, p);
      if depth > 0 {
        FreeEntries(LoadPtrs(disk[b]), depth, p);
      }
      FreeBlock(b);
    }

    /** Frees what a table entry refers to, if anything. */
    method FreeEntry(b: word, depth: nat, ghost q: Path)
      requires Linked() && LivePath(inodes, inodeBits, q) && |q.idx| + depth == Depth(q.slot)
      requires b == Ptr(inodes, View(disk), q)
      modifies this`blockBits
      ensures |blockBits| == old(|blockBits|)
      ensures forall x :: 0 <= x < |blockBits| ==>
        (blockBits[x] <==> old(blockBits)[x] && !(x in owner && IsPrefix(q, owner[x])))
      decreases depth, 2
    {
      if b != 0 {
        FreeIndirectTree(b, depth, q);
      } else {
        NothingOwnedBelow(inodes, inodeBits, View(disk), owner, dataStart, total, q);
      }
    }

    /** Frees what hangs below the entries of the table at `p`. */
    method FreeEntries(ptrs: Table, depth: nat, ghost p: Path)
      requires Linked() && LivePath(inodes, inodeBits, p) && 0 < depth && |p.idx| + depth == Depth(p.slot)
      requires var b := Ptr(inodes, View(disk), p); b != 0 && b < |disk| && ptrs == LoadPtrs(disk[b])
      modifies this`blockBits
      ensures |blockBits| == old(|blockBits|)
      ensures forall x :: 0 <= x < |blockBits| ==>
        (blockBits[x] <==> old(blockBits)[x] && !(x in owner && BelowFirst(p, PTRS_PER_BLOCK, owner[x])))
      decreases depth, 0
    {
      for i := 0 to PTRS_PER_BLOCK
        invariant |blockBits| == |old(blockBits)|
        invariant forall x :: 0 <= x < |blockBits| ==>
          (blockBits[x] <==> old(blockBits)[x] && !(x in owner && BelowFirst(p, i, owner[x])))
      {
        ghost var q := Child(p, i);
        PtrOfChild(inodes, View(disk), p, i);
        FreeEntry(ptrs[i], depth - 1, q);
        forall x | x in owner
          ensures BelowFirst(p, i + 1, owner[x]) <==> BelowFirst(p, i, owner[x]) || IsPrefix(q, owner[x])
        {
          BelowNext(p, i, owner[x]);
        }
      }
    }

    /** Frees every block of the inode's four kinds of trees, and no other block. */
    method FreeInodeData(node: Inode, ghost ino: nat)
      requires Linked() && IsLive(ino) && node == inodes[ino]
      modifies this`blockBits
      ensures |blockBits| == old(|blockBits|)
      ensures forall x :: 0 <= x < |blockBits| ==>
        (blockBits[x] <==> old(blockBits)[x] && !(x in owner && owner[x].ino == ino))
    {
      for slot := 0 to ROOT_SLOTS
        invariant |blockBits| == |old(blockBits)|
        invariant forall x :: 0 <= x < |blockBits| ==>
          (blockBits[x] <==> old(blockBits)[x] && !(x in owner && owner[x].ino == ino && owner[x].slot < slot))
      {
        FreeIndirectTree(node.roots[slot], Depth(slot), Path(ino, slot, []));
      }
    }

    method FreeInode(idx: nat)
      modifies this`inodeBits
      ensures inodeBits == if idx < |old(inodeBits)| then old(inodeBits)[idx := false] else old(inodeBits)
    {
      if idx >= |inodeBits| {
        return;
      }
      inodeBits := inodeBits[idx := false];
    }

    /** Deleting an inode returns exactly its own blocks to the free pool. */
    method Release(ino: nat)
      requires Valid() && IsLive(ino)
      modifies this`blockBits, this`inodeBits, this`owner
      ensures Valid()
      ensures inodeBits == old(inodeBits)[ino := false]
      ensures forall b :: dataStart <= b < total ==>
        (blockBits[b] <==> old(blockBits)[b] && !(b in old(owner) && old(owner)[b].ino == ino))
    {
      FreeInodeData(inodes[ino], ino);
      FreeInode(ino);
      DropInode(inodes, old(inodeBits), View(disk), owner, dataStart, total, ino);
      owner := Without(owner, ino);
    }

    /** Every used directory entry names a live inode, and no inode is named twice. */
    ghost predicate Consistent()
      reads this
    {
      Valid() && |inodes| < WORD_LIMIT && IsLive(ROOT_INODE) && NamesOk(Now(), inodeBits, entryOf)
    }

    /** The entries of one directory block, searched in order; entries at or above `limit` are skipped. */
    method ScanBlock(dir: nat, blk: nat, sector: Sector, limit: nat, name: seq<byte>) returns (r: int)
      requires Valid() && dir < |inodes| && blk < INODE_DIRECT
      requires forall k: nat :: k < SECTOR_SIZE ==> sector[k] == Byte(Now(), dir, blk, k)
      requires forall j :: 0 <= j < DIRENTS_PER_BLOCK ==> InoOf(EntryBytes(Now(), Loc(dir, blk, j))) < limit
      ensures -1 <= r < DIRENTS_PER_BLOCK
      ensures r >= 0 ==> Matches(Now(), Loc(dir, blk, r), name)
      ensures forall j :: 0 <= j < (if r >= 0 then r else DIRENTS_PER_BLOCK) ==> !Matches(Now(), Loc(dir, blk, j), name)
    {
      for i := 0 to DIRENTS_PER_BLOCK
        invariant forall j :: 0 <= j < i ==> !Matches(Now(), Loc(dir, blk, j), name)
      {
        var e := sector[DIRENT_SIZE * i..DIRENT_SIZE * (i + 1)];
        assert e == EntryBytes(Now(), Loc(dir, blk, i));
        if InoOf(e) != 0 && InoOf(e) < limit && NameOf(e) == name {
          return i;
        }
      }
      return -1;
    }

    ghost predicate IsDir(dir: nat)
      reads this
    {
      IsLive(dir) && inodes[dir].kind == KIND_DIR
    }

    lemma DirSector(dir: nat, blk: nat)
      requires Valid() && IsLive(dir) && blk < INODE_DIRECT && inodes[dir].roots[blk] != 0
      ensures inodes[dir].roots[blk] < |disk|
      ensures forall k: nat :: k < SECTOR_SIZE ==> disk[inodes[dir].roots[blk]][k] == Byte(Now(), dir, blk, k)
    {
      var p := PathOf(dir, blk);
      assert p == Path(dir, blk, []) && Ptr(inodes, View(disk), p) == inodes[dir].roots[blk];
      assert LivePath(inodes, inodeBits, p);
    }

    lemma EntriesInRange(dir: nat)
      requires Consistent() && IsDir(dir)
      ensures forall l :: ProperLoc(l, |inodes|) && l.dir == dir ==>
        InoOf(EntryBytes(Now(), l)) < |inodes| && InoOf(EntryBytes(Now(), l)) < WORD_LIMIT
    {
      forall l | ProperLoc(l, |inodes|) && l.dir == dir
        ensures InoOf(EntryBytes(Now(), l)) < |inodes|
      {
        assert DirLoc(Now(), inodeBits, l);
      }
    }

    /** Finds the first entry called `name`. The search ends at the first missing block. */
    method DirLookup(dir: nat, node: Inode, name: seq<byte>) returns (r: int, ghost loc: Loc)
      requires Consistent() && IsLive(dir) && node == inodes[dir]
      ensures r >= 0 ==>
        && IsDir(dir) && loc.dir == dir && ProperLoc(loc, |inodes|)
        && FirstMatch(Now(), loc, name) && r == InoOf(EntryBytes(Now(), loc)) && BlocksUpTo(Now(), dir, loc.blk)
      ensures r < 0 ==> r == -1 && (IsDir(dir) ==> NoMatch(Now(), dir, name))
    {
      loc := Loc(dir, 0, 0);
      if node.kind != KIND_DIR {
        return -1, loc;
      }
      EntriesInRange(dir);
      for b := 0 to INODE_DIRECT
        invariant b > 0 ==> BlocksUpTo(Now(), dir, b - 1)
        invariant forall l :: ProperLoc(l, |inodes|) && l.dir == dir && l.blk < b ==> !Matches(Now(), l, name)
      {
        if node.roots[b] == 0 {
          return -1, loc;
        }
        DirSector(dir, b);
        var sector := disk[node.roots[b]];
        var i := ScanBlock(dir, b, sector, |inodes|, name);
        if i >= 0 {
          var e := sector[DIRENT_SIZE * i..DIRENT_SIZE * (i + 1)];
          loc := Loc(dir, b, i);
          assert e == EntryBytes(Now(), loc);
          return InoOf(e), loc;
        }
        forall l | ProperLoc(l, |inodes|) && l.dir == dir && l.blk == b
          ensures !Matches(Now(), l, name)
        {
          assert l == Loc(dir, b, l.i);
        }
      }
      return -1, loc;
    }

    /** Writes back the directory block `base` with entry `i` replaced by `e`. */
    method WriteEntry(dir: nat, blk: nat, i: nat, phys: word, base: Sector, e: seq<byte>, ghost was: Snapshot)
      requires SinceThen(was, Path(dir, blk, [])) && IsLive(dir) && blk < INODE_DIRECT && i < DIRENTS_PER_BLOCK
      requires Owned(was.inodes, was.inodeBits, View(was.disk), was.owner, dataStart, total)
      requires phys == inodes[dir].roots[blk] != 0 && |e| == DIRENT_SIZE
      requires forall k: nat :: k < SECTOR_SIZE ==> base[k] == Byte(Image(was.inodes, was.disk), dir, blk, k)
      modifies this`disk
      ensures Valid() && EntryPut(Image(was.inodes, was.disk), inodeBits, Now(), Loc(dir, blk, i), e)
    {
      var buf := PutEntry(base, i, e);
      assert PathOf(dir, blk) == Path(dir, blk, []);
      assert phys < |disk| by { DirSector(dir, blk); }
      BlockWrite(was.inodes, inodeBits, was.disk, was.owner, inodes, disk, owner, dataStart, total,
                 dir, blk, phys, buf, 0, buf);
      disk := disk[phys := buf];
      EntryPutFromBlock(Image(was.inodes, was.disk), inodeBits, Now(), Loc(dir, blk, i), base, e);
    }

    /** Writes zeros over an entry. */
    method ClearEntry(dir: nat, node: Inode, blk: nat, i: nat)
      requires Valid() && IsLive(dir) && node == inodes[dir] && blk < INODE_DIRECT && i < DIRENTS_PER_BLOCK
      requires node.roots[blk] != 0 && node.roots[blk] < |disk|
      requires forall k: nat :: k < SECTOR_SIZE ==> disk[node.roots[blk]][k] == Byte(Now(), dir, blk, k)
      modifies this`disk
      ensures Valid() && EntryPut(old(Now()), inodeBits, Now(), Loc(dir, blk, i), Zeros(DIRENT_SIZE))
    {
      ghost var was := Snapshot(inodes, inodeBits, disk, owner);
      GrownRefl(inodes, inodeBits, View(disk), owner, dataStart, total, Path(dir, blk, []));
      WriteEntry(dir, blk, i, node.roots[blk], disk[node.roots[blk]], Zeros(DIRENT_SIZE), was);
    }

    /** The entry of block `b` that is called `name`, or -1; a missing block has none. */
    method FindInBlock(dir: nat, b: nat, name: seq<byte>) returns (i: int)
      requires Consistent() && IsDir(dir) && b < INODE_DIRECT
      ensures -1 <= i < DIRENTS_PER_BLOCK
      ensures i >= 0 ==> inodes[dir].roots[b] != 0 && Matches(Now(), Loc(dir, b, i), name)
      ensures forall l :: ProperLoc(l, |inodes|) && l.dir == dir && l.blk == b && (i < 0 || l.i < i) ==>
        !Matches(Now(), l, name)
    {
      i := -1;
      if inodes[dir].roots[b] != 0 {
        EntriesInRange(dir);
        DirSector(dir, b);
        i := ScanBlock(dir, b, disk[inodes[dir].roots[b]], WORD_LIMIT, name);
      }
      forall l | ProperLoc(l, |inodes|) && l.dir == dir && l.blk == b && (i < 0 || l.i < i)
        ensures !Matches(Now(), l, name)
      {
        assert l == Loc(dir, b, l.i);
        if inodes[dir].roots[b] == 0 {
          MissingBlock(Now(), l);
        }
      }
    }

    /** Clears the first entry called `name`. Missing blocks are skipped. */
    method DirRemove(dir: nat, node: Inode, name: seq<byte>) returns (r: int, ghost loc: Loc)
      requires Consistent() && IsLive(dir) && node == inodes[dir]
      modifies this`disk
      ensures Valid()
      ensures r == 0 ==>
        && IsDir(dir) && loc.dir == dir && ProperLoc(loc, |inodes|) && FirstMatch(old(Now()), loc, name)
        && EntryPut(old(Now()), inodeBits, Now(), loc, Zeros(DIRENT_SIZE))
      ensures r != 0 ==>
        && r == -1 && disk == old(disk)
        && (IsDir(dir) ==> forall l :: ProperLoc(l, |inodes|) && l.dir == dir ==> !Matches(Now(), l, name))
    {
      loc := Loc(dir, 0, 0);
      if node.kind != KIND_DIR {
        return -1, loc;
      }
      for b := 0 to INODE_DIRECT
        invariant disk == old(disk)
        invariant forall l :: ProperLoc(l, |inodes|) && l.dir == dir && l.blk < b ==> !Matches(Now(), l, name)
      {
        var i := FindInBlock(dir, b, name);
        if i >= 0 {
          loc := Loc(dir, b, i);
          DirSector(dir, b);
          ClearEntry(dir, node, b, i);
          return 0, loc;
        }
      }
      return -1, loc;
    }

    /** The first unused entry of a directory block that was read into a buffer, or -1. */
    static method FindFree(buf: Sector, ghost im: Image, ghost dir: nat, ghost blk: nat) returns (i: int)
      requires WellFormed(im.ns) && dir < |im.ns| && blk < INODE_DIRECT
      requires forall k: nat :: k < SECTOR_SIZE ==> buf[k] == Byte(im, dir, blk, k)
      ensures -1 <= i < DIRENTS_PER_BLOCK
      ensures i >= 0 ==> !Occupied(im, Loc(dir, blk, i)) && UsedBelow(im, dir, blk, i)
      ensures i < 0 ==> UsedBelow(im, dir, blk, DIRENTS_PER_BLOCK)
    {
      for j := 0 to DIRENTS_PER_BLOCK
        invariant UsedBelow(im, dir, blk, j)
      {
        EntryInBuffer(im, buf, Loc(dir, blk, j));
        if WordAt(buf, DIRENT_SIZE * j) == 0 {
          return j;
        }
      }
      return -1;
    }

    /** Block `blk` of a directory, created if it is missing. A new block counts as empty whatever it holds. */
    method OpenDirBlock(dir: nat, node: Inode, blk: nat) returns (phys: word, node': Inode, buf: Sector)
      requires Valid() && IsLive(dir) && node == inodes[dir] && blk < INODE_DIRECT
      modifies this
      ensures inodeBits == old(inodeBits) && entryOf == old(entryOf)
      ensures Step(old(inodes), old(inodeBits), old(disk), old(owner), Path(dir, blk, []))
      ensures node' == inodes[dir] == node.(roots := node.roots[blk := phys])
      ensures phys == 0 ==> Unwritten(old(Now()), inodeBits, Now())
      ensures phys != 0 ==> forall k: nat :: k < SECTOR_SIZE ==> buf[k] == Byte(old(Now()), dir, blk, k)
      ensures node.roots[blk] != 0 ==> Now() == old(Now()) && blockBits == old(blockBits) && owner == old(owner)
      ensures phys == 0 <==> node.roots[blk] == 0 && |old(FreeBlocks())| == 0
      ensures |FreeBlocks()| == |old(FreeBlocks())| - if node.roots[blk] == 0 && phys != 0 then 1 else 0
    {
      var isNew := node.roots[blk] == 0;
      ghost var p := PathOf(dir, blk);
      assert p == Path(dir, blk, []) && (isNew <==> Ptr(inodes, View(disk), p) == 0);
      phys, node' := RootBlock(dir, node, blk, true);
      buf := ZeroSector();
      if phys == 0 {
        assert FreeBlocks() == {};
        FailedWrite(old(inodes), inodeBits, old(disk), old(owner), inodes, disk, owner, dataStart, total, dir, blk);
      } else if !isNew {
        DirSector(dir, blk);
        buf := disk[phys];
      }
    }

    /**
     Tries block `blk` of a directory: 1 means that the entry was added, 0 that the block has no unused entry,
     -1 that the volume is full.
     */
    method AddInBlock(dir: nat, node: Inode, blk: nat, name: seq<byte>, idx: word)
      returns (r: int, node': Inode, ghost loc: Loc)
      requires Valid() && IsLive(dir) && node == inodes[dir] && blk < INODE_DIRECT
      modifies this
      ensures inodeBits == old(inodeBits) && entryOf == old(entryOf)
      ensures Valid()
      ensures OnlyRoots(old(inodes), inodes, dir) && node' == inodes[dir]
      ensures forall c :: 0 <= c < INODE_DIRECT && c != blk ==> node'.roots[c] == node.roots[c]
      ensures -1 <= r <= 1
      ensures r == 1 ==>
        && loc.dir == dir && loc.blk == blk && loc.i < DIRENTS_PER_BLOCK
        && EntryPut(old(Now()), inodeBits, Now(), loc, EncodeEntry(idx, name))
        && inodes[dir].roots[blk] != 0 && !Occupied(old(Now()), loc) && UsedBelow(old(Now()), dir, blk, loc.i)
      ensures r == 0 ==>
        && Now() == old(Now()) && blockBits == old(blockBits) && owner == old(owner) && inodes[dir].roots[blk] != 0
        && UsedBelow(old(Now()), dir, blk, DIRENTS_PER_BLOCK)
      ensures r == -1 ==> Unwritten(old(Now()), inodeBits, Now())
      ensures r == -1 <==> node.roots[blk] == 0 && |old(FreeBlocks())| == 0
      ensures |FreeBlocks()| == |old(FreeBlocks())| - if r == 1 && node.roots[blk] == 0 then 1 else 0
    {
      loc := Loc(dir, blk, 0);
      var phys, buf;
      phys, node', buf := OpenDirBlock(dir, node, blk);
      if phys == 0 {
        return -1, node', loc;
      }
      var i := FindFree(buf, old(Now()), dir, blk);
      if i < 0 {
        assert Occupied(old(Now()), loc);
        OccupiedBlock(old(Now()), loc);
        return 0, node', loc;
      }
      loc := Loc(dir, blk, i);
      WriteEntry(dir, blk, i, phys, buf, EncodeEntry(idx, name), old(Snapshot(inodes, inodeBits, disk, owner)));
      return 1, node', loc;
    }

    /** Adds an entry in the first unused place, block by block; -1 means there is no room. */
    method DirAdd(dir: nat, node: Inode, name: seq<byte>, idx: word) returns (r: int, node': Inode, ghost loc: Loc)
      requires Valid() && IsLive(dir) && node == inodes[dir]
      modifies this
      ensures inodeBits == old(inodeBits) && entryOf == old(entryOf)
      ensures Valid()
      ensures OnlyRoots(old(inodes), inodes, dir) && node' == inodes[dir]
      ensures r == 0 || r == -1
      ensures r == 0 ==>
        && loc.dir == dir && ProperLoc(loc, |inodes|) && BlocksUpTo(Now(), dir, loc.blk)
        && EntryPut(old(Now()), inodeBits, Now(), loc, EncodeEntry(idx, name)) && FirstFree(old(Now()), loc)
        && (forall b :: 0 <= b < loc.blk ==> old(inodes[dir]).roots[b] != 0)
      ensures r == -1 ==> Unwritten(old(Now()), inodeBits, Now())
      ensures r == 0 <==> HasPlace(old(Now()), dir, |old(FreeBlocks())|)
      ensures |FreeBlocks()| ==
        |old(FreeBlocks())| - if r == 0 && old(inodes[dir]).roots[loc.blk] == 0 then 1 else 0
    {
      node' := node;
      for b := 0 to INODE_DIRECT
        invariant inodeBits == old(inodeBits) && entryOf == old(entryOf)
        invariant Now() == old(Now()) && blockBits == old(blockBits) && owner == old(owner) && node' == inodes[dir]
        invariant forall c :: 0 <= c < b ==> inodes[dir].roots[c] != 0
        invariant forall c: nat :: c < b ==> UsedBelow(old(Now()), dir, c, DIRENTS_PER_BLOCK)
      {
        var done;
        done, node', loc := AddInBlock(dir, node', b, name, idx);
        if done == 1 {
          FirstFreeInBlock(old(Now()), loc);
          assert Place(old(Now()), dir, loc, |old(FreeBlocks())|);
          return 0, node', loc;
        }
        if done < 0 {
          NoPlaceWithoutBlock(old(Now()), dir, b);
          return -1, node', loc;
        }
      }
      AllBlocksUsed(old(Now()), dir);
      NoPlaceInFull(old(Now()), dir, |old(FreeBlocks())|);
      return -1, node', Loc(dir, 0, 0);
    }

    /** Takes the lowest unused inode; -1 means there is none. */
    method AllocInode() returns (r: int)
      modifies this`inodeBits
      ensures -1 <= r < |old(inodeBits)|
      ensures r == -1 ==> inodeBits == old(inodeBits) && forall i :: 0 <= i < |inodeBits| ==> inodeBits[i]
      ensures r >= 0 ==>
        && !old(inodeBits)[r] && inodeBits == old(inodeBits)[r := true]
        && forall i :: 0 <= i < r ==> old(inodeBits)[i]
    {
      for i := 0 to |inodeBits|
        invariant inodeBits == old(inodeBits)
        invariant forall j :: 0 <= j < i ==> inodeBits[j]
      {
        if !inodeBits[i] {
          inodeBits := inodeBits[i := true];
          return i;
        }
      }
      return -1;
    }

    /** An inode of size 0 whose only block pointer is direct[0]. */
    static function NewNode(b: word, kind: byte): (n: Inode)
      ensures |n.roots| == ROOT_SLOTS && n.size == 0 && n.kind == kind && n.roots[0] == b
      ensures forall s :: 0 < s < ROOT_SLOTS ==> n.roots[s] == 0
    {
      Inode(0, seq<word>(ROOT_SLOTS, s => if s == 0 then b else 0), kind)
    }

    /** Every inode is in use. */
    ghost predicate NoInode()
      reads this
    {
      forall i :: 0 <= i < |inodeBits| ==> inodeBits[i]
    }

    /** An inode with one data block; on failure the inode is given back. */
    method NewInode(kind: byte) returns (r: int, b: word)
      requires Valid()
      modifies this
      ensures disk == old(disk) && entryOf == old(entryOf)
      ensures Valid()
      ensures r < 0 ==> r == -1 && Now() == old(Now()) && inodeBits == old(inodeBits) && blockBits == old(blockBits)
      ensures r < 0 ==> owner == old(owner)
      ensures r >= 0 <==> !old(NoInode()) && |old(FreeBlocks())| > 0
      ensures r >= 0 ==> |FreeBlocks()| == |old(FreeBlocks())| - 1
      ensures r >= 0 ==>
        && r < |inodes| == |old(inodeBits)| && !old(inodeBits)[r] && inodeBits == old(inodeBits)[r := true]
        && (forall i :: 0 <= i < r ==> old(inodeBits)[i])
        && inodes == old(inodes)[r := NewNode(b, kind)] && dataStart <= b < total
        && Unwritten(old(Now()), old(inodeBits), Now())
    {
      r := AllocInode();
      if r < 0 {
        return -1, 0;
      }
      b := AllocBlock();
      BlockTaken(old(blockBits), dataStart, total, b);
      if b == 0 {
        FreeInode(r);
        assert inodeBits == old(inodeBits);
        return -1, 0;
      }
      BornWithBlock(old(inodes), old(inodeBits), disk, owner, dataStart, total, r, b, kind);
      owner := owner[b := Path(r, 0, [])];
      inodes := inodes[r := NewNode(b, kind)];
    }

    /** The last step of both kinds of creation. That the directory may have no room left is not reported. */
    method LinkName(parent: nat, name: seq<byte>, idx: word) returns (ghost added: bool, ghost loc: Loc)
      requires Consistent() && IsDir(parent) && 0 !in name
      requires 0 < idx && IsLive(idx)
      requires forall l :: DirLoc(Now(), inodeBits, l) ==> InoOf(EntryBytes(Now(), l)) != idx
      modifies this
      ensures inodeBits == old(inodeBits)
      ensures Consistent() && OnlyRoots(old(inodes), inodes, parent)
      ensures added ==>
        && loc.dir == parent && ProperLoc(loc, |inodes|)
        && EntryPut(old(Now()), inodeBits, Now(), loc, EncodeEntry(idx, name)) && FirstFree(old(Now()), loc)
        && (forall b :: 0 <= b < loc.blk ==> old(inodes[parent]).roots[b] != 0) && BlocksUpTo(Now(), parent, loc.blk)
      ensures !added ==> Unwritten(old(Now()), inodeBits, Now())
      ensures added <==> HasPlace(old(Now()), parent, |old(FreeBlocks())|)
      ensures |FreeBlocks()| == |old(FreeBlocks())| - NewBlocks(old(Now()), parent, added, loc)
    {
      var r, _, l := DirAdd(parent, inodes[parent], name, idx);
      added, loc := r == 0, l;
      if added {
        NamesAfterPut(old(Now()), inodeBits, Now(), entryOf, loc, idx, name);
        entryOf := entryOf[idx := loc];
      } else {
        NamesUnwritten(old(Now()), inodeBits, Now(), entryOf);
      }
    }

    /** A new file or directory that no entry names yet; the block of a directory is cleared, that of a file is not. */
    method NewUnnamed(kind: byte) returns (r: int)
      requires Consistent()
      modifies this
      ensures Consistent()
      ensures r < 0 ==> r == -1 && Now() == old(Now()) && inodeBits == old(inodeBits) && blockBits == old(blockBits)
      ensures r >= 0 <==> !old(NoInode()) && |old(FreeBlocks())| > 0
      ensures r >= 0 ==> |FreeBlocks()| == |old(FreeBlocks())| - 1
      ensures r >= 0 ==>
        && 0 < r < |inodes| == |old(inodeBits)| && !old(inodeBits)[r] && inodeBits == old(inodeBits)[r := true]
        && inodes == old(inodes)[r := inodes[r]] && inodes[r].size == 0 && inodes[r].kind == kind
        && Unwritten(old(Now()), old(inodeBits), Now())
        && (forall l :: DirLoc(Now(), inodeBits, l) ==> InoOf(EntryBytes(Now(), l)) != r)
        && (kind == KIND_DIR ==> NoEntries(Now(), r))
    {
      var b;
      r, b := NewInode(kind);
      if r < 0 {
        return;
      }
      if kind == KIND_DIR {
        ClearFirstBlock(r, b);
      }
      forall i: nat | i < |inodes| && old(inodeBits)[i]
        ensures SameEntries(old(Now()), Now(), i)
      {
        SameBytesSameEntries(old(Now()), Now(), i);
      }
      NamesAfterBirth(old(Now()), old(inodeBits), Now(), entryOf, r);
    }

    method ClearFirstBlock(dir: nat, b: word)
      requires Valid() && IsLive(dir) && inodes[dir] == NewNode(b, KIND_DIR) && dataStart <= b < total
      modifies this`disk
      ensures Valid()
      ensures NoEntries(Now(), dir)
      ensures Unwritten(old(Now()), inodeBits[dir := false], Now())
    {
      assert PathOf(dir, 0) == Path(dir, 0, []);
      GrownRefl(inodes, inodeBits, View(disk), owner, dataStart, total, PathOf(dir, 0));
      BlockWrite(inodes, inodeBits, disk, owner, inodes, disk, owner, dataStart, total, dir, 0, b,
                 ZeroSector(), 0, ZeroSector());
      disk := disk[b := ZeroSector()];
      forall l | ProperLoc(l, |inodes|) && l.dir == dir
        ensures InoOf(EntryBytes(Now(), l)) == 0
      {
        if l.blk == 0 {
          assert EntryBytes(Now(), l) == Zeros(DIRENT_SIZE);
        } else {
          MissingBlock(Now(), l);
        }
      }
    }

    /** Names the inode `r` that has just been made, when the volume was in state `was` with `free` free blocks. */
    method NameNew(kind: byte, name: seq<byte>, parent: nat, r: nat, ghost was: Image, ghost live: seq<bool>,
                   ghost free: nat)
      returns (ghost added: bool, ghost loc: Loc)
      requires Consistent() && IsDir(parent) && 0 !in name && 0 < r < |inodes|
      requires |live| == |inodes| && parent < |live| && live[parent] && !live[r] && inodeBits == live[r := true]
      requires Unwritten(was, live, Now()) && inodes == was.ns[r := inodes[r]]
      requires inodes[r].size == 0 && inodes[r].kind == kind && (kind == KIND_DIR ==> NoEntries(Now(), r))
      requires forall l :: DirLoc(Now(), inodeBits, l) ==> InoOf(EntryBytes(Now(), l)) != r
      requires NoMatch(was, parent, name) && |FreeBlocks()| == free
      modifies this
      ensures Consistent() && inodeBits == live[r := true]
      ensures Created(was, live, Now(), inodeBits, parent, name, kind, r, added, loc)
      ensures Entered(was, Now(), parent, name, free, added, loc)
      ensures |FreeBlocks()| == free - NewBlocks(was, parent, added, loc)
    {
      ghost var middle := Now();
      added, loc := LinkName(parent, name, r);
      CreatedInSteps(was, live, middle, Now(), parent, name, kind, r, added, loc);
      EnteredInSteps(was, live, middle, Now(), parent, name, r, free, added, loc);
      SameDirectory(was, live, middle, parent);
    }

    /** Creates an inode and names it in directory `parent`. Nothing changes if that fails or the name is taken. */
    method CreateNamed(kind: byte, name: seq<byte>, parent: nat) returns (r: int, ghost added: bool, ghost loc: Loc)
      requires Consistent() && IsDir(parent) && 0 !in name
      modifies this
      ensures Consistent()
      ensures r < 0 ==> r == -1 && Now() == old(Now()) && inodeBits == old(inodeBits) && blockBits == old(blockBits)
      ensures r >= 0 ==>
        && NoMatch(old(Now()), parent, name)
        && Created(old(Now()), old(inodeBits), Now(), inodeBits, parent, name, kind, r, added, loc)
      ensures r >= 0 <==> NoMatch(old(Now()), parent, name) && !old(NoInode()) && |old(FreeBlocks())| > 0
      ensures r >= 0 ==> Entered(old(Now()), Now(), parent, name, |old(FreeBlocks())| - 1, added, loc)
      ensures r >= 0 ==> |FreeBlocks()| == |old(FreeBlocks())| - 1 - NewBlocks(old(Now()), parent, added, loc)
    {
      added := false;
      r, loc := DirLookup(parent, inodes[parent], name);
      if r >= 0 {
        return -1, added, loc;
      }
      r := NewUnnamed(kind);
      if r < 0 {
        return -1, added, loc;
      }
      added, loc := NameNew(kind, name, parent, r, old(Now()), old(inodeBits), |old(FreeBlocks())| - 1);
    }

    method CreateFile(name: seq<byte>, tag: seq<byte>, currentDir: nat)
      returns (r: int, ghost added: bool, ghost loc: Loc)
      requires Consistent() && IsDir(currentDir) && 0 !in name
      modifies this
      ensures Consistent()
      ensures r < 0 ==> r == -1 && Now() == old(Now()) && inodeBits == old(inodeBits) && blockBits == old(blockBits)
      ensures r >= 0 <==>
        tag != [] && NoMatch(old(Now()), currentDir, name) && !old(NoInode()) && |old(FreeBlocks())| > 0
      ensures r >= 0 ==> Entered(old(Now()), Now(), currentDir, name, |old(FreeBlocks())| - 1, added, loc)
      ensures r >= 0 ==> |FreeBlocks()| == |old(FreeBlocks())| - 1 - NewBlocks(old(Now()), currentDir, added, loc)
      ensures r >= 0 ==>
        && NoMatch(old(Now()), currentDir, name)
        && Created(old(Now()), old(inodeBits), Now(), inodeBits, currentDir, name, KIND_FILE, r, added, loc)
    {
      if tag == [] {
        return -1, false, Loc(currentDir, 0, 0);
      }
      r, added, loc := CreateNamed(KIND_FILE, name, currentDir);
    }

    method CreateDir(name: seq<byte>, parent: nat) returns (r: int, ghost added: bool, ghost loc: Loc)
      requires Consistent() && IsDir(parent) && 0 !in name
      modifies this
      ensures Consistent()
      ensures r < 0 ==> r == -1 && Now() == old(Now()) && inodeBits == old(inodeBits) && blockBits == old(blockBits)
      ensures r >= 0 ==>
        && NoMatch(old(Now()), parent, name)
        && Created(old(Now()), old(inodeBits), Now(), inodeBits, parent, name, KIND_DIR, r, added, loc)
      ensures r >= 0 <==> NoMatch(old(Now()), parent, name) && !old(NoInode()) && |old(FreeBlocks())| > 0
      ensures r >= 0 ==> Entered(old(Now()), Now(), parent, name, |old(FreeBlocks())| - 1, added, loc)
      ensures r >= 0 ==> |FreeBlocks()| == |old(FreeBlocks())| - 1 - NewBlocks(old(Now()), parent, added, loc)
    {
      r, added, loc := CreateNamed(KIND_DIR, name, parent);
    }

    /** Whether no entry of block `b` of the directory is used. */
    method BlockIsEmpty(dir: nat, b: nat) returns (r: bool)
      requires Consistent() && IsDir(dir) && b < INODE_DIRECT
      ensures r <==>
        forall l :: ProperLoc(l, |inodes|) && l.dir == dir && l.blk == b ==> InoOf(EntryBytes(Now(), l)) == 0
    {
      if inodes[dir].roots[b] == 0 {
        forall l | ProperLoc(l, |inodes|) && l.dir == dir && l.blk == b
          ensures InoOf(EntryBytes(Now(), l)) == 0
        {
          MissingBlock(Now(), l);
        }
        return true;
      }
      EntriesInRange(dir);
      DirSector(dir, b);
      var sector := disk[inodes[dir].roots[b]];
      for i := 0 to DIRENTS_PER_BLOCK
        invariant forall j :: 0 <= j < i ==> InoOf(EntryBytes(Now(), Loc(dir, b, j))) == 0
      {
        var e := sector[DIRENT_SIZE * i..DIRENT_SIZE * (i + 1)];
        assert e == EntryBytes(Now(), Loc(dir, b, i));
        if InoOf(e) != 0 && InoOf(e) < |inodes| {
          return false;
        }
      }
      forall l | ProperLoc(l, |inodes|) && l.dir == dir && l.blk == b
        ensures InoOf(EntryBytes(Now(), l)) == 0
      {
        assert l == Loc(dir, b, l.i);
      }
      return true;
    }

    /** Whether no entry of the directory is used. */
    method DirIsEmpty(dir: nat) returns (r: bool)
      requires Consistent() && IsLive(dir)
      ensures r <==> inodes[dir].kind == KIND_DIR && NoEntries(Now(), dir)
    {
      if inodes[dir].kind != KIND_DIR {
        return false;
      }
      for b := 0 to INODE_DIRECT
        invariant forall l :: ProperLoc(l, |inodes|) && l.dir == dir && l.blk < b ==> InoOf(EntryBytes(Now(), l)) == 0
      {
        var empty := BlockIsEmpty(dir, b);
        if !empty {
          return false;
        }
      }
      return true;
    }

    /** Writing to a file, as opposed to a directory, cannot damage the namespace. */
    method WriteFile(ino: nat, offset: word, data: seq<byte>) returns (r: int, ghost w: nat)
      requires Consistent() && IsLive(ino) && inodes[ino].kind != KIND_DIR && |data| < WORD_LIMIT
      modifies this
      ensures Consistent() && inodeBits == old(inodeBits)
      ensures Wrote(old(Now()), inodeBits, Now(), ino, offset, data, w)
      ensures if r < 0 then w < |data| && r == -1 else r == w == |data|
      ensures inodes[ino].size ==
        if r >= 0 && offset + |data| > old(inodes[ino].size) then offset + |data| else old(inodes[ino].size)
      ensures r >= 0 <==> Fits(old(Now()), |old(FreeBlocks())|, ino, offset, |data|)
      ensures r >= 0 ==> |FreeBlocks()| == |old(FreeBlocks())| - BlocksNeeded(old(Now()), ino, offset, |data|)
      ensures inodes[ino].kind == old(inodes[ino].kind)
      ensures forall i :: 0 <= i < |inodes| && i != ino ==> inodes[i] == old(inodes)[i]
      ensures r >= 0 ==> disk[0] == old(disk[0])
    {
      r, w := Write(ino, offset, data);
      NamesAfterWrite(old(Now()), inodeBits, Now(), entryOf, ino, offset, data, w);
    }

    /** What a write that succeeds has written is what a read of any part of it returns. */
    method WriteAndRead(ino: nat, offset: word, data: seq<byte>, from: word, n: word)
      returns (r: int, buffer: seq<byte>)
      requires Consistent() && IsLive(ino) && inodes[ino].kind != KIND_DIR && |data| < WORD_LIMIT
      modifies this
      ensures Valid() && IsLive(ino)
      ensures r >= 0 && offset <= from && from + n <= offset + |data| ==>
        buffer == data[from - offset..from - offset + n]
    {
      ghost var w;
      r, w := WriteFile(ino, offset, data);
      buffer := Read(ino, inodes[ino], from, n);
      if r >= 0 && offset <= from && from + n <= offset + |data| {
        ReadStopsAtEnd(inodes[ino].size, from, n);
        WriteThenRead(old(Now()), inodeBits, Now(), ino, offset, data, from, buffer);
      }
    }

    /** The inode named by entry `loc` loses its name and all its blocks. */
    ghost predicate Deleted(was: Snapshot, bits: seq<bool>, loc: Loc)
      reads this
    {
      && WellFormed(was.inodes) && |was.inodeBits| == |was.inodes| && ProperLoc(loc, |was.inodes|)
      && EntryPut(Image(was.inodes, was.disk), was.inodeBits, Now(), loc, Zeros(DIRENT_SIZE)) && inodes == was.inodes
      && var ino := InoOf(EntryBytes(Image(was.inodes, was.disk), loc));
      && ino < |was.inodeBits| && was.inodeBits[ino] && inodeBits == was.inodeBits[ino := false]
      && total <= |bits| && total <= |blockBits|
      && (forall b :: dataStart <= b < total ==>
            (blockBits[b] <==> bits[b] && !(b in was.owner && was.owner[b].ino == ino)))
    }

    method Unlink(parent: nat, name: seq<byte>, num: nat, ghost found: Loc) returns (r: int)
      requires Consistent() && IsDir(parent) && found.dir == parent && ProperLoc(found, |inodes|)
      requires FirstMatch(Now(), found, name) && num == InoOf(EntryBytes(Now(), found))
      modifies this
      ensures Consistent()
      ensures r == 0 && Deleted(old(Snapshot(inodes, inodeBits, disk, owner)), old(blockBits), found)
    {
      assert DirLoc(Now(), inodeBits, found);
      ghost var loc;
      r, loc := DirRemove(parent, inodes[parent], name);
      assert loc == found;
      NamesAfterClear(old(Now()), inodeBits, Now(), entryOf, found);
      NamesAfterDrop(Now(), inodeBits, entryOf, num);
      Release(num);
    }

    /**
     Removes `name` from a directory and frees the inode it names with every block of its trees, and no other
     block. A directory is only removed when it has no entries.
     */
    method DeleteIn(parent: nat, name: seq<byte>) returns (r: int, ghost loc: Loc)
      requires Consistent() && IsLive(parent)
      modifies this
      ensures Consistent()
      ensures r != 0 ==> r == -1 && Now() == old(Now()) && inodeBits == old(inodeBits) && blockBits == old(blockBits)
      ensures r == 0 ==>
        && old(IsDir(parent)) && loc.dir == parent && ProperLoc(loc, |old(inodes)|)
        && FirstMatch(old(Now()), loc, name)
        && Deleted(old(Snapshot(inodes, inodeBits, disk, owner)), old(blockBits), loc)
        && var ino := InoOf(EntryBytes(old(Now()), loc));
        && (old(inodes)[ino].kind == KIND_DIR ==> NoEntries(old(Now()), ino))
      ensures r != 0 ==>
        || !IsDir(parent) || NoMatch(Now(), parent, name)
        || (Finds(Now(), parent, name, loc) && HoldsEntries(Now(), InoOf(EntryBytes(Now(), loc))))
    {
      loc := Loc(parent, 0, 0);
      if inodes[parent].kind != KIND_DIR {
        return -1, loc;
      }
      var num;
      num, loc := DirLookup(parent, inodes[parent], name);
      if num <= 0 {
        return -1, loc;
      }
      assert DirLoc(Now(), inodeBits, loc);
      if inodes[num].kind == KIND_DIR {
        var empty := DirIsEmpty(num);
        if !empty {
          return -1, loc;
        }
      }
      r := Unlink(parent, name, num, loc);
    }
  }

  ghost predicate Spells(name: seq<byte>, s: string) {
    |name| == |s| && forall i :: 0 <= i < |s| ==> name[i] == s[i] as int
  }

  /** The directories that a format makes in the root. */
  function DefaultDirs(): (names: seq<seq<byte>>)
    ensures |names| == 5 && Different(names) && forall j :: 0 <= j < 5 ==> 0 !in names[j] && |names[j]| <= NAME_MAX
    ensures Spells(names[0], "user") && Spells(names[1], "data") && Spells(names[2], "mount")
    ensures Spells(names[3], "lock") && Spells(names[4], "cosfiles")
  {
    [[117, 115, 101, 114], [100, 97, 116, 97], [109, 111, 117, 110, 116], [108, 111, 99, 107],
     [99, 111, 115, 102, 105, 108, 101, 115]]
  }

  ghost function LiveInodes(bits: seq<bool>): set<nat> {
    set i | 0 <= i < |bits| && bits[i]
  }

  /** While fewer inodes are live than there are, one is unused. */
  lemma SomeUnused(bits: seq<bool>)
    requires |LiveInodes(bits)| < |bits|
    ensures exists i :: 0 <= i < |bits| && !bits[i]
  {
    assert (forall i :: 0 <= i < |bits| ==> bits[i]) ==> LiveInodes(bits) == Range(0, |bits|);
  }

  /** The root has the first `n` default directories, and `free` blocks are left for the others. */
  ghost predicate Furnished(v: Volume, n: nat, free: nat)
    reads v
  {
    && v.Consistent() && v.IsDir(ROOT_INODE) && |v.FreeBlocks()| == free && 8 <= |v.inodeBits|
    && Stocked(v.Now(), v.inodeBits, DefaultDirs(), n) && |LiveInodes(v.inodeBits)| == n + 1
  }

  lemma FurnishedAtFirst(v: Volume)
    requires v.Consistent() && v.IsDir(ROOT_INODE) && NoEntries(v.Now(), ROOT_INODE) && 8 <= |v.inodeBits|
    requires v.inodes[ROOT_INODE].roots[0] != 0 && v.dataStart < v.total && v.blockBits[v.dataStart]
    requires forall b :: v.dataStart < b < v.total ==> !v.blockBits[b]
    requires forall i :: 0 < i < |v.inodeBits| ==> !v.inodeBits[i]
    ensures Furnished(v, 0, v.total - v.dataStart - 1)
  {
    assert v.FreeBlocks() == Range(v.dataStart + 1, v.total);
    assert LiveInodes(v.inodeBits) == {ROOT_INODE};
  }

  /** Makes the next default directory, if there is a block for it. */
  method MakeDefault(v: Volume, name: seq<byte>, ghost n: nat, ghost free: nat)
    requires Furnished(v, n, free) && n < |DefaultDirs()| && (free > 0 ==> name == DefaultDirs()[n]) && 0 !in name
    modifies v
    ensures if free == 0 then Furnished(v, n, 0) else Furnished(v, n + 1, free - 1)
  {
    ghost var was, live := v.Now(), v.inodeBits;
    if free > 0 {
      StockedNext(was, live, DefaultDirs(), n, free - 1);
      SomeUnused(live);
    }
    ghost var added, loc;
    var r;
    r, added, loc := v.CreateDir(name, ROOT_INODE);
    assert r >= 0 <==> free > 0;
    if r >= 0 {
      assert added;
      StockedMore(was, live, v.Now(), v.inodeBits, DefaultDirs(), n, r, loc);
      OneMoreLive(live, r);
    }
  }

  lemma OneMoreLive(bits: seq<bool>, r: nat)
    requires r < |bits| && !bits[r]
    ensures |LiveInodes(bits[r := true])| == |LiveInodes(bits)| + 1
  {
    assert LiveInodes(bits[r := true]) == LiveInodes(bits) + {r};
  }

  /**
   A whole quick format. The root then has the default directories, all empty, in the order of their names, as many as
   there are blocks for, and nothing else.
   */
  method QuickFormat(total: nat, sectors: Disk, table: seq<Inode>) returns (v: Volume, ghost n: nat)
    requires 6 <= total < WORD_LIMIT && |sectors| == total
    requires WellFormed(table) && |table| == LayoutOf(total).inodeCount
    ensures fresh(v) && v.Consistent() && v.IsDir(ROOT_INODE)
    ensures v.total == total && v.dataStart == LayoutOf(total).dataStart < total
    ensures n == if total - v.dataStart > 5 then 5 else total - v.dataStart - 1
    ensures Stocked(v.Now(), v.inodeBits, DefaultDirs(), n)
  {
    LayoutFits(total);
    EightInodes(total);
    v := new Volume.Format(total, sectors, table);
    FurnishedAtFirst(v);
    ghost var free := total - v.dataStart - 1;
    n := 0;
    var names := DefaultDirs();
    for k := 0 to |names|
      invariant fresh(v) && n == (if k < free then k else free) && Furnished(v, n, free - n)
    {
      MakeDefault(v, names[k], n, free - n);
      n := if n < free then n + 1 else n;
    }
  }

  const CROWDED_TOTAL := 211
  const CROWDED_START := 17

  /** The crowded volume is laid out as a format lays it out. */
  lemma CrowdedLayout()
    ensures LayoutOf(CROWDED_TOTAL) == Layout(CROWDED_INODES, 1, 3, CROWDED_START)
    ensures CROWDED_TOTAL == CROWDED_START + CROWDED_BLOCKS
  {
  }

  /** A consistent volume of 211 sectors with one free block, laid out as a format does it, with a full root block. */
  method LoadCrowded() returns (v: Volume)
    ensures fresh(v) && v.Consistent() && v.IsDir(ROOT_INODE) && !v.NoInode() && |v.FreeBlocks()| == 1
    ensures v.total == CROWDED_TOTAL && v.dataStart == LayoutOf(CROWDED_TOTAL).dataStart
    ensures |v.inodes| == LayoutOf(CROWDED_TOTAL).inodeCount && v.Now() == Crowded(CROWDED_START)
    ensures v.inodeBits == CrowdedLive()
  {
    CrowdedLayout();
    var bits := seq(BITS_PER_SECTOR, b => b != CROWDED_TOTAL - 1);
    v := new Volume.Load(CROWDED_TOTAL, CROWDED_START, 1, CrowdedDisk(CROWDED_START), CrowdedInodes(CROWDED_START),
                         CrowdedLive(), bits, CrowdedOwner(CROWDED_START), CrowdedAt());
    CrowdedOwned(CROWDED_START);
    CreatedButNotFound(CROWDED_START);
    assert v.Consistent() && !v.inodeBits[CROWD + 1];
    assert v.FreeBlocks() == {CROWDED_TOTAL - 1};
  }

  /** A file is created on a consistent volume, reported as created, and not found. */
  method LoseFile() returns (v: Volume, r: int)
    ensures fresh(v) && v.Consistent() && v.IsDir(ROOT_INODE)
    ensures r >= 0 && v.IsLive(r) && NoMatch(v.Now(), ROOT_INODE, [65])
  {
    v := LoadCrowded();
    CreatedButNotFound(CROWDED_START);
    ghost var added, loc;
    r, added, loc := v.CreateFile([65], [65], ROOT_INODE);
  }

  /** A block of a file is asked for that needs two tables, where one block is free: sector 0 is zeroed. */
  method LoseSuperblock() returns (v: Volume, b: word, ghost before: Sector)
    ensures fresh(v) && v.Valid() && b == 0
    ensures WordAt(before, 0) == 0x5A4C534A && v.disk[0] == ZeroSector()
  {
    v := LoadCrowded();
    before := v.disk[0];
    WordBytesRoundTrip(0x5A4C534A);
    assert before[0..4] == WordBytes(0x5A4C534A);
    assert PathOf(1, 140) == Path(1, 13, [0, 0]) && Ptr(v.inodes, View(v.disk), Path(1, 13, [])) == 0;
    var node;
    b, node := v.GetPhysicalBlock(1, v.inodes[1], 140, true);
  }
}
