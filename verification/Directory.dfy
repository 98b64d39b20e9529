/**
 Directories of COSFS: the 32-byte entries in the twelve direct blocks of a directory, and the invariant that ties
 them to the inode bitmap.
 */
module Directory {
  import opened Sectors
  import opened BlockTree
  import opened FileBytes

  const DIRENT_SIZE := 32
  const DIRENTS_PER_BLOCK := 16
  const NAME_MAX := 27
  const KIND_FILE: byte := 1
  const KIND_DIR: byte := 2

  /** Entry `i` of block `blk` of directory `dir`. */
  datatype Loc = Loc(dir: nat, blk: nat, i: nat)

  predicate ProperLoc(loc: Loc, inodeCount: nat) {
    loc.dir < inodeCount && loc.blk < INODE_DIRECT && loc.i < DIRENTS_PER_BLOCK
  }

  /** The order in which lookups go through a directory. */
  predicate Before(a: Loc, b: Loc) {
    a.dir == b.dir && (a.blk < b.blk || (a.blk == b.blk && a.i < b.i))
  }

  function EntryBytes(im: Image, loc: Loc): (e: seq<byte>)
    requires WellFormed(im.ns) && ProperLoc(loc, |im.ns|)
    ensures |e| == DIRENT_SIZE
  {
    seq<byte>(DIRENT_SIZE, j requires 0 <= j < DIRENT_SIZE => Byte(im, loc.dir, loc.blk, DIRENT_SIZE * loc.i + j))
  }

  /** The text up to the first NUL. */
  function CString(s: seq<byte>): seq<byte> {
    if s == [] || s[0] == 0 then [] else [s[0]] + CString(s[1..])
  }

  /** The inode an entry refers to; 0 marks an unused entry. */
  function InoOf(e: seq<byte>): word
    requires |e| == DIRENT_SIZE
  {
    WordAt(e, 0)
  }

  function NameOf(e: seq<byte>): seq<byte>
    requires |e| == DIRENT_SIZE
  {
    CString(e[4..])
  }

  /** The entry that dir_add writes: names are cut after 27 bytes and padded with NULs. */
  function EncodeEntry(idx: word, name: seq<byte>): (e: seq<byte>)
    ensures |e| == DIRENT_SIZE
  {
    var n := if |name| <= NAME_MAX then name else name[..NAME_MAX];
    WordBytes(idx) + n + Zeros(28 - |n|)
  }

  lemma {:induction false} CStringOf(n: seq<byte>, z: seq<byte>)
    requires 0 !in n && z != [] && z[0] == 0
    ensures CString(n + z) == n
  {
    if n == [] {
      assert n + z == z;
    } else {
      assert (n + z)[1..] == n[1..] + z;
      CStringOf(n[1..], z);
    }
  }

  lemma EntryRoundTrip(idx: word, name: seq<byte>)
    requires 0 !in name
    ensures InoOf(EncodeEntry(idx, name)) == idx
    ensures NameOf(EncodeEntry(idx, name)) == if |name| <= NAME_MAX then name else name[..NAME_MAX]
  {
    var n := if |name| <= NAME_MAX then name else name[..NAME_MAX];
    var e := EncodeEntry(idx, name);
    WordBytesRoundTrip(idx);
    assert e[4..] == n + Zeros(28 - |n|);
    CStringOf(n, Zeros(28 - |n|));
  }

  /** A directory block with the bytes of entry `i` replaced. */
  function PutEntry(base: Sector, i: nat, e: seq<byte>): Sector
    requires i < DIRENTS_PER_BLOCK && |e| == DIRENT_SIZE
  {
    Overwrite(base, DIRENT_SIZE * i, e)
  }

  /** Writing back a directory block with one entry replaced changes that entry and no other, in any directory. */
  lemma PutEntryMeaning(im: Image, live: seq<bool>, im': Image, at: Loc, base: Sector, e: seq<byte>, loc: Loc)
    requires WellFormed(im.ns) && ProperLoc(at, |im.ns|) && ProperLoc(loc, |im.ns|) && |e| == DIRENT_SIZE
    requires |live| == |im.ns| && live[loc.dir]
    requires forall k: nat :: k < SECTOR_SIZE ==> base[k] == Byte(im, at.dir, at.blk, k)
    requires BlockWritten(im, live, im', at.dir, at.blk, 0, PutEntry(base, at.i, e))
    ensures EntryBytes(im', loc) == if loc == at then e else EntryBytes(im, loc)
  {
    if loc.dir == at.dir && loc.blk == at.blk {
      var s := PutEntry(base, at.i, e);
      forall j: nat | j < DIRENT_SIZE
        ensures EntryBytes(im', loc)[j] == if loc == at then e[j] else EntryBytes(im, loc)[j]
      {
        var k := DIRENT_SIZE * loc.i + j;
        assert Byte(im', at.dir, at.blk, k) == s[k];
        assert base[k] == Byte(im, at.dir, at.blk, k);
      }
    }
  }

  /** Entry `at` is now `e`; every other entry of every live inode, and every other file, is as before. */
  ghost predicate EntryPut(im: Image, live: seq<bool>, im': Image, at: Loc, e: seq<byte>) {
    && WellFormed(im.ns) && WellFormed(im'.ns) && |live| == |im.ns| && ProperLoc(at, |im.ns|)
    && OnlyRoots(im.ns, im'.ns, at.dir)
    && (forall loc :: ProperLoc(loc, |im.ns|) && live[loc.dir] ==>
          EntryBytes(im', loc) == if loc == at then e else EntryBytes(im, loc))
    && (forall i: nat, l: nat, k: nat :: i < |im.ns| && live[i] && i != at.dir && k < SECTOR_SIZE ==>
          Byte(im', i, l, k) == Byte(im, i, l, k))
    && (forall i: nat, l: nat :: i < |im.ns| && live[i] && i != at.dir ==> Mapped(im', i, l) == Mapped(im, i, l))
  }

  lemma EntryPutFromBlock(im: Image, live: seq<bool>, im': Image, at: Loc, base: Sector, e: seq<byte>)
    requires WellFormed(im.ns) && ProperLoc(at, |im.ns|) && |e| == DIRENT_SIZE && |live| == |im.ns|
    requires OnlyRoots(im.ns, im'.ns, at.dir)
    requires forall k: nat :: k < SECTOR_SIZE ==> base[k] == Byte(im, at.dir, at.blk, k)
    requires BlockWritten(im, live, im', at.dir, at.blk, 0, PutEntry(base, at.i, e))
    ensures EntryPut(im, live, im', at, e)
  {
    forall loc | ProperLoc(loc, |im.ns|) && live[loc.dir]
      ensures EntryBytes(im', loc) == if loc == at then e else EntryBytes(im, loc)
    {
      PutEntryMeaning(im, live, im', at, base, e, loc);
    }
  }

  ghost predicate DirLoc(im: Image, live: seq<bool>, loc: Loc) {
    |live| == |im.ns| && ProperLoc(loc, |im.ns|) && live[loc.dir] && im.ns[loc.dir].kind == KIND_DIR
  }

  /**
   Every used entry of a live directory refers to a live inode, and no inode has two entries: `at` gives the entry
   of an inode back.
   */
  ghost predicate NamesOk(im: Image, live: seq<bool>, at: map<nat, Loc>) {
    && WellFormed(im.ns)
    && (forall loc :: DirLoc(im, live, loc) && InoOf(EntryBytes(im, loc)) != 0 ==>
          var e := InoOf(EntryBytes(im, loc));
          e < |im.ns| && live[e] && e in at && at[e] == loc)
  }

  /** A used entry that carries `name`. */
  ghost predicate Matches(im: Image, loc: Loc, name: seq<byte>)
    requires WellFormed(im.ns) && ProperLoc(loc, |im.ns|)
  {
    InoOf(EntryBytes(im, loc)) != 0 && NameOf(EntryBytes(im, loc)) == name
  }

  /** `loc` is the first entry of its directory that carries `name`. */
  ghost predicate FirstMatch(im: Image, loc: Loc, name: seq<byte>)
    requires WellFormed(im.ns) && ProperLoc(loc, |im.ns|)
  {
    && Matches(im, loc, name)
    && (forall l :: ProperLoc(l, |im.ns|) && Before(l, loc) ==> !Matches(im, l, name))
  }

  /** `loc` is what a lookup of `name` in the directory finds. */
  ghost predicate Finds(im: Image, dir: nat, name: seq<byte>, loc: Loc) {
    WellFormed(im.ns) && ProperLoc(loc, |im.ns|) && loc.dir == dir && FirstMatch(im, loc, name)
  }

  /** All blocks of the directory up to block `blk` exist. */
  predicate BlocksUpTo(im: Image, dir: nat, blk: nat)
    requires WellFormed(im.ns) && dir < |im.ns| && blk < INODE_DIRECT
  {
    forall b :: 0 <= b <= blk ==> im.ns[dir].roots[b] != 0
  }

  /** No entry in front of the first missing block carries `name`: this is where dir_lookup gives up. */
  ghost predicate NoMatch(im: Image, dir: nat, name: seq<byte>)
    requires WellFormed(im.ns) && dir < |im.ns|
  {
    forall l :: ProperLoc(l, |im.ns|) && l.dir == dir && BlocksUpTo(im, dir, l.blk) ==> !Matches(im, l, name)
  }

  lemma {:induction false} CStringShort(s: seq<byte>)
    ensures |CString(s)| <= |s|
  {
    if s != [] && s[0] != 0 {
      CStringShort(s[1..]);
    }
  }

  /** No name of more than 28 bytes is ever found, also after it was added, since entries hold no more. */
  lemma LongNameNotFound(im: Image, dir: nat, name: seq<byte>)
    requires WellFormed(im.ns) && dir < |im.ns| && |name| > NAME_MAX + 1
    ensures NoMatch(im, dir, name)
  {
    forall l | ProperLoc(l, |im.ns|)
      ensures !Matches(im, l, name)
    {
      CStringShort(EntryBytes(im, l)[4..]);
    }
  }

  /** Entries of a missing block are all unused. */
  lemma MissingBlock(im: Image, loc: Loc)
    requires WellFormed(im.ns) && ProperLoc(loc, |im.ns|) && im.ns[loc.dir].roots[loc.blk] == 0
    ensures EntryBytes(im, loc) == Zeros(DIRENT_SIZE)
  {
    var p := PathOf(loc.dir, loc.blk);
    assert p == Path(loc.dir, loc.blk, []) && Ptr(im.ns, View(im.d), p) == 0;
    forall j | 0 <= j < DIRENT_SIZE
      ensures EntryBytes(im, loc)[j] == 0
    {
      assert Byte(im, loc.dir, loc.blk, DIRENT_SIZE * loc.i + j) == 0;
    }
  }

  ghost predicate Occupied(im: Image, loc: Loc) {
    WellFormed(im.ns) && ProperLoc(loc, |im.ns|) && InoOf(EntryBytes(im, loc)) != 0
  }

  /** The entries of block `blk` in front of entry `n` are used. */
  ghost predicate UsedBelow(im: Image, dir: nat, blk: nat, n: nat) {
    forall j: nat {:trigger Occupied(im, Loc(dir, blk, j))} :: j < n ==> Occupied(im, Loc(dir, blk, j))
  }

  /** All entries in front of `loc` are used, and it is not. */
  ghost predicate FirstFree(im: Image, loc: Loc) {
    && !Occupied(im, loc)
    && forall l {:trigger Occupied(im, l)} :: ProperLoc(l, |im.ns|) && Before(l, loc) ==> Occupied(im, l)
  }

  /** All entries of the directory are used. */
  ghost predicate NoRoom(im: Image, dir: nat) {
    forall l {:trigger Occupied(im, l)} :: ProperLoc(l, |im.ns|) && l.dir == dir ==> Occupied(im, l)
  }

  lemma FirstFreeInBlock(im: Image, loc: Loc)
    requires !Occupied(im, loc) && UsedBelow(im, loc.dir, loc.blk, loc.i)
    requires forall b: nat :: b < loc.blk ==> UsedBelow(im, loc.dir, b, DIRENTS_PER_BLOCK)
    ensures FirstFree(im, loc)
  {
    forall l | ProperLoc(l, |im.ns|) && Before(l, loc)
      ensures Occupied(im, l)
    {
      assert UsedBelow(im, loc.dir, l.blk, if l.blk < loc.blk then DIRENTS_PER_BLOCK else loc.i);
      assert Occupied(im, Loc(loc.dir, l.blk, l.i));
    }
  }

  lemma AllBlocksUsed(im: Image, dir: nat)
    requires forall b: nat :: b < INODE_DIRECT ==> UsedBelow(im, dir, b, DIRENTS_PER_BLOCK)
    ensures NoRoom(im, dir)
  {
    forall l | ProperLoc(l, |im.ns|) && l.dir == dir
      ensures Occupied(im, l)
    {
      assert UsedBelow(im, dir, l.blk, DIRENTS_PER_BLOCK) && Occupied(im, Loc(dir, l.blk, l.i));
    }
  }

  /** The entry of a directory block that was read into a buffer. */
  lemma EntryInBuffer(im: Image, buf: Sector, loc: Loc)
    requires WellFormed(im.ns) && ProperLoc(loc, |im.ns|)
    requires forall k: nat :: k < SECTOR_SIZE ==> buf[k] == Byte(im, loc.dir, loc.blk, k)
    ensures Occupied(im, loc) <==> WordAt(buf, DIRENT_SIZE * loc.i) != 0
  {
    assert buf[DIRENT_SIZE * loc.i..DIRENT_SIZE * (loc.i + 1)] == EntryBytes(im, loc);
  }

  lemma OccupiedBlock(im: Image, loc: Loc)
    requires Occupied(im, loc)
    ensures im.ns[loc.dir].roots[loc.blk] != 0
  {
    if im.ns[loc.dir].roots[loc.blk] == 0 {
      MissingBlock(im, loc);
    }
  }

  /** Where an entry is added when `free` blocks are free: the first unused entry, if its block exists or can. */
  ghost predicate Place(im: Image, dir: nat, loc: Loc, free: nat) {
    && WellFormed(im.ns) && ProperLoc(loc, |im.ns|) && loc.dir == dir && FirstFree(im, loc)
    && (im.ns[dir].roots[loc.blk] != 0 || free > 0)
  }

  ghost predicate HasPlace(im: Image, dir: nat, free: nat) {
    exists loc :: Place(im, dir, loc, free)
  }

  lemma OneFirstFree(im: Image, a: Loc, b: Loc)
    requires ProperLoc(a, |im.ns|) && ProperLoc(b, |im.ns|) && a.dir == b.dir && FirstFree(im, a) && FirstFree(im, b)
    ensures a == b
  {
    assert a != b ==> Before(a, b) || Before(b, a);
  }

  lemma NoPlaceInFull(im: Image, dir: nat, free: nat)
    requires NoRoom(im, dir)
    ensures !HasPlace(im, dir, free)
  {
  }

  /** The first unused entry is in a block that is missing and for which there is none. */
  lemma NoPlaceWithoutBlock(im: Image, dir: nat, blk: nat)
    requires WellFormed(im.ns) && dir < |im.ns| && blk < INODE_DIRECT && im.ns[dir].roots[blk] == 0
    requires forall b: nat :: b < blk ==> UsedBelow(im, dir, b, DIRENTS_PER_BLOCK)
    ensures !HasPlace(im, dir, 0) && HasPlace(im, dir, 1)
  {
    var first := Loc(dir, blk, 0);
    MissingBlock(im, first);
    FirstFreeInBlock(im, first);
    assert Place(im, dir, first, 1);
    forall loc | Place(im, dir, loc, 0)
      ensures false
    {
      OneFirstFree(im, loc, first);
    }
  }

  /** Writes to other inodes change neither which entries of a directory are used nor which blocks it has. */
  lemma SameDirectory(im: Image, live: seq<bool>, im': Image, dir: nat)
    requires Unwritten(im, live, im') && dir < |live| && live[dir]
    ensures forall l: Loc {:trigger Occupied(im', l)} {:trigger Occupied(im, l)} :: l.dir == dir ==>
      (Occupied(im', l) <==> Occupied(im, l))
    ensures forall b :: 0 <= b < INODE_DIRECT ==> (im'.ns[dir].roots[b] == 0 <==> im.ns[dir].roots[b] == 0)
  {
    SameBytesSameEntries(im, im', dir);
    forall b | 0 <= b < INODE_DIRECT
      ensures im'.ns[dir].roots[b] == 0 <==> im.ns[dir].roots[b] == 0
    {
      assert Mapped(im', dir, b) == Mapped(im, dir, b);
      assert PathOf(dir, b) == Path(dir, b, []);
    }
  }

  lemma SameFirstFree(im: Image, live: seq<bool>, im': Image, loc: Loc)
    requires Unwritten(im, live, im') && loc.dir < |live| && live[loc.dir]
    ensures FirstFree(im', loc) <==> FirstFree(im, loc)
  {
    SameDirectory(im, live, im', loc.dir);
  }

  lemma SamePlaces(im: Image, live: seq<bool>, im': Image, dir: nat, free: nat)
    requires Unwritten(im, live, im') && dir < |live| && live[dir]
    ensures HasPlace(im', dir, free) <==> HasPlace(im, dir, free)
    ensures forall loc: Loc {:trigger FirstFree(im', loc)} :: loc.dir == dir ==>
      (FirstFree(im', loc) <==> FirstFree(im, loc))
  {
    SameDirectory(im, live, im', dir);
    forall loc: Loc | loc.dir == dir
      ensures FirstFree(im', loc) <==> FirstFree(im, loc)
      ensures Place(im', dir, loc, free) <==> Place(im, dir, loc, free)
    {
      SameFirstFree(im, live, im', loc);
    }
  }

  lemma SameMatches(im: Image, live: seq<bool>, im': Image, dir: nat, name: seq<byte>)
    requires Unwritten(im, live, im') && dir < |live| && live[dir] && NoMatch(im, dir, name)
    ensures NoMatch(im', dir, name)
  {
    SameDirectory(im, live, im', dir);
    SameBytesSameEntries(im, im', dir);
    forall l | ProperLoc(l, |im'.ns|) && l.dir == dir && BlocksUpTo(im', dir, l.blk)
      ensures !Matches(im', l, name)
    {
      assert BlocksUpTo(im, dir, l.blk);
    }
  }

  /** Inode `i` has the same directory entries in both images. */
  ghost predicate SameEntries(im: Image, im': Image, i: nat)
    requires WellFormed(im.ns) && WellFormed(im'.ns) && |im.ns| == |im'.ns| && i < |im.ns|
  {
    forall loc :: ProperLoc(loc, |im.ns|) && loc.dir == i ==> EntryBytes(im', loc) == EntryBytes(im, loc)
  }

  lemma SameBytesSameEntries(im: Image, im': Image, i: nat)
    requires WellFormed(im.ns) && WellFormed(im'.ns) && |im.ns| == |im'.ns| && i < |im.ns|
    requires forall l: nat, k: nat :: l < INODE_DIRECT && k < SECTOR_SIZE ==> Byte(im', i, l, k) == Byte(im, i, l, k)
    ensures SameEntries(im, im', i)
  {
  }

  /** Files may change as they please as long as no directory does. */
  lemma NamesFrame(im: Image, live: seq<bool>, im': Image, at: map<nat, Loc>)
    requires NamesOk(im, live, at) && WellFormed(im'.ns) && |im'.ns| == |im.ns| == |live|
    requires forall i :: 0 <= i < |im.ns| ==> im'.ns[i].kind == im.ns[i].kind
    requires forall i :: 0 <= i < |im.ns| && live[i] && im.ns[i].kind == KIND_DIR ==> SameEntries(im, im', i)
    ensures NamesOk(im', live, at)
  {
    forall loc | DirLoc(im', live, loc)
      ensures DirLoc(im, live, loc) && EntryBytes(im', loc) == EntryBytes(im, loc)
    {
      assert SameEntries(im, im', loc.dir);
    }
  }

  lemma NamesUnwritten(im: Image, live: seq<bool>, im': Image, at: map<nat, Loc>)
    requires NamesOk(im, live, at) && Unwritten(im, live, im')
    requires forall i :: 0 <= i < |im.ns| ==> im'.ns[i].kind == im.ns[i].kind
    ensures NamesOk(im', live, at)
  {
    forall i: nat | i < |im.ns| && live[i]
      ensures SameEntries(im, im', i)
    {
      SameBytesSameEntries(im, im', i);
    }
    NamesFrame(im, live, im', at);
  }

  lemma NamesAfterWrite(im: Image, live: seq<bool>, im': Image, at: map<nat, Loc>,
                        ino: nat, offset: nat, data: seq<byte>, w: nat)
    requires NamesOk(im, live, at) && Wrote(im, live, im', ino, offset, data, w) && im.ns[ino].kind != KIND_DIR
    requires forall i :: 0 <= i < |im.ns| ==> im'.ns[i].kind == im.ns[i].kind
    ensures NamesOk(im', live, at)
  {
    forall i: nat | i < |im.ns| && live[i] && i != ino
      ensures SameEntries(im, im', i)
    {
      forall l: nat, k: nat | k < SECTOR_SIZE
        ensures Byte(im', i, l, k) == Byte(im, i, l, k)
      {
        assert WroteByte(im, im', ino, offset, data, w, i, l, k);
      }
      SameBytesSameEntries(im, im', i);
    }
    NamesFrame(im, live, im', at);
  }

  lemma NamesAfterPut(im: Image, live: seq<bool>, im': Image, at: map<nat, Loc>, loc: Loc, idx: word, name: seq<byte>)
    requires NamesOk(im, live, at) && EntryPut(im, live, im', loc, EncodeEntry(idx, name)) && 0 !in name
    requires 0 < idx < |im.ns| && live[idx]
    requires forall l :: DirLoc(im, live, l) ==> InoOf(EntryBytes(im, l)) != idx
    ensures NamesOk(im', live, at[idx := loc])
  {
    EntryRoundTrip(idx, name);
    forall l | DirLoc(im', live, l)
      ensures DirLoc(im, live, l)
    {
    }
  }

  lemma NamesAfterClear(im: Image, live: seq<bool>, im': Image, at: map<nat, Loc>, loc: Loc)
    requires NamesOk(im, live, at) && EntryPut(im, live, im', loc, Zeros(DIRENT_SIZE))
    ensures NamesOk(im', live, at)
    ensures DirLoc(im, live, loc) ==>
      forall l :: DirLoc(im', live, l) ==>
        InoOf(EntryBytes(im', l)) == 0 || InoOf(EntryBytes(im', l)) != InoOf(EntryBytes(im, loc))
  {
    forall l | DirLoc(im', live, l)
      ensures DirLoc(im, live, l)
    {
    }
  }

  lemma NamesAfterDrop(im: Image, live: seq<bool>, at: map<nat, Loc>, ino: nat)
    requires NamesOk(im, live, at) && |live| == |im.ns| && 0 < ino < |live|
    requires forall l :: DirLoc(im, live, l) ==> InoOf(EntryBytes(im, l)) != ino
    ensures NamesOk(im, live[ino := false], at)
  {
    forall l | DirLoc(im, live[ino := false], l)
      ensures DirLoc(im, live, l)
    {
    }
  }

  /** A new inode is named by no entry yet, and a new directory has none. */
  lemma NamesAfterBirth(im: Image, live: seq<bool>, im': Image, at: map<nat, Loc>, idx: nat)
    requires NamesOk(im, live, at) && WellFormed(im'.ns) && |im'.ns| == |im.ns| == |live|
    requires 0 < idx < |live| && !live[idx]
    requires forall i :: 0 <= i < |im.ns| && i != idx ==> im'.ns[i] == im.ns[i]
    requires forall i :: 0 <= i < |im.ns| && live[i] ==> SameEntries(im, im', i)
    requires im'.ns[idx].kind == KIND_DIR ==> NoEntries(im', idx)
    ensures NamesOk(im', live[idx := true], at)
    ensures forall l :: DirLoc(im', live[idx := true], l) ==> InoOf(EntryBytes(im', l)) != idx
  {
    forall l | DirLoc(im', live[idx := true], l)
      ensures l.dir != idx ==> DirLoc(im, live, l) && EntryBytes(im', l) == EntryBytes(im, l)
    {
      if l.dir != idx {
        assert SameEntries(im, im', l.dir);
      }
    }
  }

  /** An entry put where the search passes, under a name the search did not find, is what the search finds next. */
  lemma FoundAfterPut(im: Image, live: seq<bool>, im': Image, loc: Loc, idx: word, name: seq<byte>)
    requires EntryPut(im, live, im', loc, EncodeEntry(idx, name)) && live[loc.dir]
    requires NoMatch(im, loc.dir, name) && 0 !in name && |name| <= NAME_MAX && idx != 0
    requires forall b :: 0 <= b < loc.blk ==> im.ns[loc.dir].roots[b] != 0
    ensures FirstMatch(im', loc, name) && InoOf(EntryBytes(im', loc)) == idx
  {
    EntryRoundTrip(idx, name);
    forall l | ProperLoc(l, |im.ns|) && Before(l, loc)
      ensures !Matches(im', l, name)
    {
      if im.ns[loc.dir].roots[l.blk] == 0 {
        MissingBlock(im, l);
      } else {
        assert BlocksUpTo(im, loc.dir, l.blk);
      }
    }
  }

  /** Inode `ino` is a directory with entries. */
  ghost predicate HoldsEntries(im: Image, ino: nat) {
    ino < |im.ns| && im.ns[ino].kind == KIND_DIR && !NoEntries(im, ino)
  }

  /** All entries of a directory are unused. */
  ghost predicate NoEntries(im: Image, dir: nat) {
    WellFormed(im.ns) && forall l :: ProperLoc(l, |im.ns|) && l.dir == dir ==> InoOf(EntryBytes(im, l)) == 0
  }

  /**
   Inode `r` of kind `kind` is new in `im'`. Every other live file is untouched, and so is the parent directory but
   for the entry `loc`, which names `r` and is the one a lookup finds. Without room for it, `added` is false.
   */
  ghost predicate Created(im: Image, live: seq<bool>, im': Image, live': seq<bool>, parent: nat, name: seq<byte>,
                          kind: byte, r: nat, added: bool, loc: Loc)
  {
    && WellFormed(im.ns) && WellFormed(im'.ns) && |im.ns| == |im'.ns| == |live| && parent < |live|
    && 0 < r < |live| && !live[r] && live' == live[r := true]
    && im'.ns[r].size == 0 && im'.ns[r].kind == kind
    && im'.ns[parent].size == im.ns[parent].size && im'.ns[parent].kind == im.ns[parent].kind
    && (forall i :: 0 <= i < |live| && i != r && i != parent ==> im'.ns[i] == im.ns[i])
    && (forall i: nat, l: nat, k: nat :: i < |live| && live[i] && i != parent && k < SECTOR_SIZE ==>
          Byte(im', i, l, k) == Byte(im, i, l, k))
    && (forall l :: ProperLoc(l, |live|) && l.dir == parent && !(added && l == loc) ==>
          EntryBytes(im', l) == EntryBytes(im, l))
    && (added ==>
          && ProperLoc(loc, |live|) && loc.dir == parent && r < WORD_LIMIT
          && InoOf(EntryBytes(im, loc)) == 0 && EntryBytes(im', loc) == EncodeEntry(r, name)
          && (|name| <= NAME_MAX ==> FirstMatch(im', loc, name)))
    && (kind == KIND_DIR ==> NoEntries(im', r))
  }

  /**
   A created name is found exactly if its directory had a place for it with the `free` blocks that were left: the entry
   is then the first one that was unused.
   */
  ghost predicate Entered(im: Image, im': Image, parent: nat, name: seq<byte>, free: int, added: bool, loc: Loc) {
    && WellFormed(im'.ns) && parent < |im'.ns| && 0 <= free
    && (added <==> HasPlace(im, parent, free)) && (added ==> FirstFree(im, loc))
    && (|name| <= NAME_MAX ==> (NoMatch(im', parent, name) <==> !HasPlace(im, parent, free)))
  }

  /** How many blocks the directory takes for a new entry. */
  ghost function NewBlocks(im: Image, dir: nat, added: bool, loc: Loc): nat
    requires WellFormed(im.ns) && dir < |im.ns|
  {
    if added && loc.blk < INODE_DIRECT && im.ns[dir].roots[loc.blk] == 0 then 1 else 0
  }

  lemma EnteredInSteps(im: Image, live: seq<bool>, im1: Image, im2: Image, parent: nat, name: seq<byte>, r: nat,
                       free: nat, added: bool, loc: Loc)
    requires Unwritten(im, live, im1) && parent < |live| && live[parent] && r < |live| && NoMatch(im, parent, name)
    requires added <==> HasPlace(im1, parent, free)
    requires if added then
               && ProperLoc(loc, |live|) && loc.dir == parent && FirstFree(im1, loc) && WellFormed(im2.ns)
               && |im2.ns| == |live| && BlocksUpTo(im2, parent, loc.blk)
               && (|name| <= NAME_MAX ==> FirstMatch(im2, loc, name))
             else Unwritten(im1, live[r := true], im2)
    ensures Entered(im, im2, parent, name, free, added, loc)
  {
    SamePlaces(im, live, im1, parent, free);
    if !added {
      SameMatches(im, live, im1, parent, name);
      SameMatches(im1, live[r := true], im2, parent, name);
    }
  }

  // ---- a root directory with directories in its first entries ----

  /** Entry `j` of the root is what a lookup of `names[j]` finds, and it names an empty directory. */
  ghost predicate Shelf(im: Image, live: seq<bool>, names: seq<seq<byte>>, j: nat)
    requires WellFormed(im.ns) && |live| == |im.ns| && j < |names| && ProperLoc(Loc(0, 0, j), |im.ns|)
  {
    var e := InoOf(EntryBytes(im, Loc(0, 0, j)));
    && FirstMatch(im, Loc(0, 0, j), names[j])
    && e < |im.ns| && live[e] && im.ns[e].kind == KIND_DIR && NoEntries(im, e)
  }

  /** The root has empty directories of the first `k` names, and nothing else. */
  ghost predicate Stocked(im: Image, live: seq<bool>, names: seq<seq<byte>>, k: nat) {
    && WellFormed(im.ns) && |live| == |im.ns| && 0 < |im.ns| && live[0] && im.ns[0].roots[0] != 0
    && k <= |names| <= DIRENTS_PER_BLOCK
    && (forall j {:trigger Shelf(im, live, names, j)} :: 0 <= j < k ==> Shelf(im, live, names, j))
    && (forall l :: ProperLoc(l, |im.ns|) && l.dir == 0 && !(l.blk == 0 && l.i < k) ==> InoOf(EntryBytes(im, l)) == 0)
  }

  predicate Different(names: seq<seq<byte>>) {
    forall i, j :: 0 <= i < j < |names| ==> names[i] != names[j]
  }

  /** The next directory has its place behind the others, and its name is new. */
  lemma StockedNext(im: Image, live: seq<bool>, names: seq<seq<byte>>, k: nat, free: nat)
    requires Stocked(im, live, names, k) && Different(names) && k < |names|
    ensures FirstFree(im, Loc(0, 0, k)) && HasPlace(im, 0, free) && NoMatch(im, 0, names[k])
  {
    forall l | ProperLoc(l, |im.ns|) && l.dir == 0 && l.blk == 0 && l.i < k
      ensures Occupied(im, l) && NameOf(EntryBytes(im, l)) == names[l.i]
    {
      assert l == Loc(0, 0, l.i) && Shelf(im, live, names, l.i);
    }
    assert Place(im, 0, Loc(0, 0, k), free);
  }

  lemma StockedMore(im: Image, live: seq<bool>, im': Image, live': seq<bool>, names: seq<seq<byte>>, k: nat, r: nat,
                    loc: Loc)
    requires Stocked(im, live, names, k) && k < |names| && |names[k]| <= NAME_MAX && 0 !in names[k]
    requires Created(im, live, im', live', 0, names[k], KIND_DIR, r, true, loc) && FirstFree(im, loc)
    requires FirstFree(im, Loc(0, 0, k))
    ensures loc == Loc(0, 0, k) && Stocked(im', live', names, k + 1) && NewBlocks(im, 0, true, loc) == 0
  {
    OneFirstFree(im, loc, Loc(0, 0, k));
    EntryRoundTrip(r, names[k]);
    OccupiedBlock(im', loc);
    forall j | 0 <= j < k
      ensures Shelf(im', live', names, j)
    {
      assert Shelf(im, live, names, j);
      var e := InoOf(EntryBytes(im, Loc(0, 0, j)));
      SameBytesSameEntries(im, im', e);
    }
  }

  // ---- a volume with a full directory block and one free block ----

  const CROWD := 16
  const CROWDED_INODES := 56
  const CROWDED_BLOCKS := 194

  /** Root pointer `s` of inode `k`: the root directory has one block, and sixteen files have twelve blocks each. */
  function CrowdedRoot(lo: nat, k: nat, s: nat): nat {
    if k == 0 then (if s == 0 then lo else 0)
    else if k <= CROWD && s < INODE_DIRECT then lo + 1 + INODE_DIRECT * (k - 1) + s
    else 0
  }

  function CrowdedInode(lo: nat, k: nat): (n: Inode)
    requires lo + CROWDED_BLOCKS < WORD_LIMIT
    ensures |n.roots| == ROOT_SLOTS && forall s :: 0 <= s < ROOT_SLOTS ==> n.roots[s] == CrowdedRoot(lo, k, s)
  {
    Inode(0, seq<word>(ROOT_SLOTS, s requires 0 <= s < ROOT_SLOTS => CrowdedRoot(lo, k, s)),
          if k == 0 then KIND_DIR else KIND_FILE)
  }

  /** The root directory, the files, and unused inodes; data blocks start at `lo`. */
  function CrowdedInodes(lo: nat): (ns: seq<Inode>)
    requires lo + CROWDED_BLOCKS < WORD_LIMIT
    ensures |ns| == CROWDED_INODES && WellFormed(ns)
    ensures forall k :: 0 <= k < CROWDED_INODES ==> ns[k] == CrowdedInode(lo, k)
  {
    seq(CROWDED_INODES, k requires 0 <= k < CROWDED_INODES => CrowdedInode(lo, k))
  }

  /** A directory block with an entry for each of the files. */
  function CrowdedBlock(): Sector {
    seq<byte>(SECTOR_SIZE, k requires 0 <= k < SECTOR_SIZE => EncodeEntry(k / DIRENT_SIZE + 1, [66])[k % DIRENT_SIZE])
  }

  lemma CrowdedByte(i: nat, j: nat)
    requires i < DIRENTS_PER_BLOCK && j < DIRENT_SIZE
    ensures CrowdedBlock()[DIRENT_SIZE * i + j] == EncodeEntry(i + 1, [66])[j]
  {
    assert (DIRENT_SIZE * i + j) / DIRENT_SIZE == i && (DIRENT_SIZE * i + j) % DIRENT_SIZE == j;
  }

  /** A superblock that begins with the magic number. */
  function CrowdedSuperblock(): Sector {
    WordBytes(0x5A4C534A) + Zeros(SECTOR_SIZE - 4)
  }

  function CrowdedSector(lo: nat, b: int): Sector {
    if b == lo then CrowdedBlock() else if b == 0 then CrowdedSuperblock() else ZeroSector()
  }

  function CrowdedDisk(lo: nat): (d: Disk)
    ensures |d| == lo + CROWDED_BLOCKS && d[lo] == CrowdedBlock() && (0 < lo ==> d[0] == CrowdedSuperblock())
  {
    seq<Sector>(lo + CROWDED_BLOCKS, b => CrowdedSector(lo, b))
  }

  function CrowdedLive(): (live: seq<bool>)
    ensures |live| == CROWDED_INODES && forall i :: 0 <= i < CROWDED_INODES ==> (live[i] <==> i <= CROWD)
  {
    seq(CROWDED_INODES, i => i <= CROWD)
  }

  /** The pointer to block `b`. */
  function PointerTo(lo: nat, b: nat): Path
    requires lo <= b
  {
    if b == lo then Path(0, 0, [])
    else Path((b - lo - 1) / INODE_DIRECT + 1, (b - lo - 1) % INODE_DIRECT, [])
  }

  ghost function CrowdedOwner(lo: nat): map<nat, Path> {
    map b: nat | lo <= b < lo + CROWDED_BLOCKS - 1 :: PointerTo(lo, b)
  }

  /** The entry that names inode `e`. */
  function EntryFor(e: nat): Loc
    requires 1 <= e
  {
    Loc(0, 0, e - 1)
  }

  ghost function CrowdedAt(): map<nat, Loc> {
    map e: nat | 1 <= e <= CROWD :: EntryFor(e)
  }

  function Crowded(lo: nat): (im: Image)
    requires lo + CROWDED_BLOCKS < WORD_LIMIT
    ensures WellFormed(im.ns)
  {
    Image(CrowdedInodes(lo), CrowdedDisk(lo))
  }

  lemma PointerBack(lo: nat, k: nat, s: nat)
    requires 0 < lo && k <= CROWD && s < ROOT_SLOTS && CrowdedRoot(lo, k, s) != 0
    ensures lo <= CrowdedRoot(lo, k, s) < lo + CROWDED_BLOCKS - 1
    ensures PointerTo(lo, CrowdedRoot(lo, k, s)) == Path(k, s, [])
  {
    if k > 0 {
      var n := INODE_DIRECT * (k - 1) + s;
      assert n / INODE_DIRECT == k - 1 && n % INODE_DIRECT == s;
    }
  }

  lemma CrowdedOwned(lo: nat)
    requires 0 < lo && lo + CROWDED_BLOCKS < WORD_LIMIT
    ensures Owned(CrowdedInodes(lo), CrowdedLive(), View(CrowdedDisk(lo)), CrowdedOwner(lo), lo,
                  lo + CROWDED_BLOCKS)
  {
    var ns, live, t := CrowdedInodes(lo), CrowdedLive(), View(CrowdedDisk(lo));
    forall b | b in CrowdedOwner(lo)
      ensures var p := CrowdedOwner(lo)[b]; LivePath(ns, live, p) && Ptr(ns, t, p) == b
    {
      assert b > lo ==> INODE_DIRECT * ((b - lo - 1) / INODE_DIRECT) + (b - lo - 1) % INODE_DIRECT == b - lo - 1;
    }
    forall p | LivePath(ns, live, p) && Ptr(ns, t, p) != 0
      ensures Ptr(ns, t, p) in CrowdedOwner(lo) && CrowdedOwner(lo)[Ptr(ns, t, p)] == p
    {
      if p.idx != [] {
        NothingBelowNull(ns, t, Path(p.ino, p.slot, []), p);
      }
      assert p == Path(p.ino, p.slot, []) && Ptr(ns, t, p) == CrowdedRoot(lo, p.ino, p.slot);
      PointerBack(lo, p.ino, p.slot);
    }
  }

  /** What the entries of the directory hold. */
  lemma CrowdedEntry(lo: nat, loc: Loc)
    requires 0 < lo && lo + CROWDED_BLOCKS < WORD_LIMIT && ProperLoc(loc, CROWDED_INODES) && loc.dir == 0
    ensures InoOf(EntryBytes(Crowded(lo), loc)) == if loc.blk == 0 then loc.i + 1 else 0
    ensures !Matches(Crowded(lo), loc, [65])
  {
    if loc.blk == 0 {
      CrowdedBytes(lo, loc.i);
      assert loc == Loc(0, 0, loc.i);
      EntryOf66(loc.i + 1);
    } else {
      MissingBlock(Crowded(lo), loc);
      UnusedEntry();
    }
  }

  lemma EntryOf66(idx: word)
    ensures InoOf(EncodeEntry(idx, [66])) == idx && NameOf(EncodeEntry(idx, [66])) != [65]
  {
    EntryRoundTrip(idx, [66]);
  }

  lemma UnusedEntry()
    ensures InoOf(Zeros(DIRENT_SIZE)) == 0
  {
  }

  lemma CrowdedBytes(lo: nat, i: nat)
    requires 0 < lo && lo + CROWDED_BLOCKS < WORD_LIMIT && i < DIRENTS_PER_BLOCK
    ensures EntryBytes(Crowded(lo), Loc(0, 0, i)) == EncodeEntry(i + 1, [66])
  {
    var im, e := Crowded(lo), EncodeEntry(i + 1, [66]);
    assert PathOf(0, 0) == Path(0, 0, []) && Ptr(im.ns, View(im.d), PathOf(0, 0)) == lo;
    forall j | 0 <= j < DIRENT_SIZE
      ensures EntryBytes(im, Loc(0, 0, i))[j] == e[j]
    {
      CrowdedByte(i, j);
    }
  }

  /**
   A consistent state in which a file can be created, since an inode is unused and one block is free, but in which the
   only directory has no place for its name once the file has taken that block.
   */
  lemma CreatedButNotFound(lo: nat)
    requires 0 < lo && lo + CROWDED_BLOCKS < WORD_LIMIT
    ensures NamesOk(Crowded(lo), CrowdedLive(), CrowdedAt())
    ensures NoMatch(Crowded(lo), 0, [65]) && !HasPlace(Crowded(lo), 0, 0)
  {
    var im := Crowded(lo);
    forall l | ProperLoc(l, |im.ns|) && l.dir == 0
      ensures InoOf(EntryBytes(im, l)) == if l.blk == 0 then l.i + 1 else 0
      ensures !Matches(im, l, [65])
    {
      CrowdedEntry(lo, l);
    }
    forall loc | DirLoc(im, CrowdedLive(), loc) && InoOf(EntryBytes(im, loc)) != 0
      ensures loc.dir == 0 && loc == Loc(0, 0, loc.i) && InoOf(EntryBytes(im, loc)) == loc.i + 1
    {
      assert loc == Loc(loc.dir, loc.blk, loc.i);
    }
    forall j: nat | j < DIRENTS_PER_BLOCK
      ensures Occupied(im, Loc(0, 0, j))
    {
      CrowdedEntry(lo, Loc(0, 0, j));
    }
    assert UsedBelow(im, 0, 0, DIRENTS_PER_BLOCK);
    NoPlaceWithoutBlock(im, 0, 1);
  }

  lemma CreatedInSteps(im: Image, live: seq<bool>, im1: Image, im2: Image, parent: nat, name: seq<byte>,
                       kind: byte, r: nat, added: bool, loc: Loc)
    requires Unwritten(im, live, im1) && parent < |live| && live[parent]
    requires 0 < r < |live| && !live[r] && r < WORD_LIMIT && 0 !in name
    requires im1.ns == im.ns[r := im1.ns[r]] && im1.ns[r].size == 0 && im1.ns[r].kind == kind
    requires OnlyRoots(im1.ns, im2.ns, parent) && WellFormed(im2.ns)
    requires NoMatch(im, parent, name) && (kind == KIND_DIR ==> NoEntries(im1, r))
    requires if added then
               && loc.dir == parent && EntryPut(im1, live[r := true], im2, loc, EncodeEntry(r, name))
               && InoOf(EntryBytes(im1, loc)) == 0
               && (forall b :: 0 <= b < loc.blk ==> im1.ns[parent].roots[b] != 0)
             else Unwritten(im1, live[r := true], im2)
    ensures Created(im, live, im2, live[r := true], parent, name, kind, r, added, loc)
  {
    SameBytesSameEntries(im, im1, parent);
    if added {
      forall l | ProperLoc(l, |im1.ns|) && l.dir == parent && BlocksUpTo(im1, parent, l.blk)
        ensures !Matches(im1, l, name)
      {
        assert BlocksUpTo(im, parent, l.blk);
      }
      if |name| <= NAME_MAX {
        FoundAfterPut(im1, live[r := true], im2, loc, r, name);
      }
    } else {
      SameBytesSameEntries(im1, im2, parent);
      SameBytesSameEntries(im1, im2, r);
    }
  }
}
