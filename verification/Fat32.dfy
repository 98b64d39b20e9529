/** Files of a FAT32 volume (fat32.c): directory entries, and the chains of clusters they refer to. */
module Fat32 {
  import opened Sectors
  import FatChains
  import opened FatStore
  import opened FatDirs

  const SLOTS_PER_SECTOR := 16

  /** Every file entry but the one at `except` stands where it stood, and its file has the same clusters and bytes. */
  ghost predicate FilesKept(dirs: Dirs, files: View, dirs': Dirs, files': View, except: Loc) {
    forall k, j {:trigger FileKept(dirs, files, dirs', files', k, j)} ::
      k in dirs && 0 <= j < |dirs[k]| && Loc(k, j) != except && dirs[k][j].Entry? && !dirs[k][j].dir ==>
        FileKept(dirs, files, dirs', files', k, j)
  }

  ghost predicate FileKept(dirs: Dirs, files: View, dirs': Dirs, files': View, k: nat, j: nat)
    requires k in dirs && j < |dirs[k]| && dirs[k][j].Entry?
  {
    && SameSlot(dirs, dirs', k, j)
    && var h := dirs[k][j].first;
       h == 0 || (h in files && h in files' && files'[h] == files[h])
  }

  /** Files are kept when only directories and the file of the excepted entry change. */
  lemma KeptFiles(dirs: Dirs, refs: map<nat, Loc>, files: View, dirs': Dirs, files': View, except: Loc)
    requires DirsOk(dirs, refs, files.Keys) && EntriesStay(dirs, dirs', except)
    requires forall h :: h in files && h !in dirs && !(h in refs && refs[h] == except) ==>
      h in files' && files'[h] == files[h]
    ensures FilesKept(dirs, files, dirs', files', except)
  {
    forall k, j | k in dirs && 0 <= j < |dirs[k]| && Loc(k, j) != except && dirs[k][j].Entry? && !dirs[k][j].dir
      ensures FileKept(dirs, files, dirs', files', k, j)
    {
      assert SameSlot(dirs, dirs', k, j);
      assert SlotOk(dirs, refs, files.Keys, k, j);
    }
  }

  /** A file entry is rewritten after its chain was freed and the chain `first`, if any, was made. */
  lemma Replaced(dirs: Dirs, refs: map<nat, Loc>, files: View, d: nat, i: nat, e: Slot, file: File, files': View)
    requires DirsOk(dirs, refs, files.Keys) && 0 !in files && d in dirs && i < |dirs[d]|
    requires dirs[d][i].Entry? && !dirs[d][i].dir && e.Entry? && e.first !in files - {dirs[d][i].first}
    requires files' == if e.first == 0 then files - {dirs[d][i].first}
                       else (files - {dirs[d][i].first})[e.first := file]
    ensures DirsOk(dirs[d := dirs[d][i := e]], refs[e.first := Loc(d, i)], files'.Keys)
    ensures FilesKept(dirs, files, dirs[d := dirs[d][i := e]], files', Loc(d, i))
  {
    var heads := files.Keys - {dirs[d][i].first};
    assert SlotOk(dirs, refs, files.Keys, d, i);
    FileDropped(dirs, refs, files.Keys, d, i);
    EntryWritten(dirs, refs, heads, files'.Keys, d, i, e);
    KeptFiles(dirs, refs, files, dirs[d := dirs[d][i := e]], files', Loc(d, i));
  }

  /**
   No cluster is lost: but for those of chain `gone` and chain `came`, the free clusters are fewer by as many as
   directory `d` has more, and no other chain comes or goes. Chain 0 stands for none.
   */
  ghost predicate Balanced(before: Account, after: Account, d: nat, gone: nat, came: nat) {
    match after
    case Account(files', free') =>
      && (forall h: nat {:trigger StillThere(before.files, files', gone, came, h)} ::
            StillThere(before.files, files', gone, came, h))
      && free' + ChainLength(files', d) + ChainLength(files', came)
         == before.free + ChainLength(before.files, d) + ChainLength(before.files, gone)
  }

  ghost predicate StillThere(files: View, files': View, gone: nat, came: nat, h: nat) {
    h in files' <==> (h in files && h != gone) || (h == came && came != 0)
  }

  /** Chain `gone` was freed, and then chain `came` made. */
  lemma BalancedSwap(files: View, free: nat, free1: nat, files': View, free': nat, d: nat, gone: nat, came: nat,
                     file: File)
    requires 0 !in files && d != gone && (came == 0 || d != came)
    requires free1 == free + ChainLength(files, gone) && free' + ChainLength(files', came) == free1
    requires files' == if came == 0 then files - {gone} else (files - {gone})[came := file]
    ensures Balanced(Account(files, free), Account(files', free'), d, gone, came)
  {
  }

  lemma BalancedGrow(files: View, free: nat, files': View, free': nat, d: nat)
    requires 0 !in files && d in files && d in files' && files' == files[d := files'[d]]
    requires free' + |files'[d].chain| == free + |files[d].chain|
    ensures Balanced(Account(files, free), Account(files', free'), d, 0, 0)
  {
  }

  /** The directory grew, and then chain `gone` was freed. */
  lemma BalancedThen(a: Account, b: Account, c: Account, d: nat, gone: nat)
    requires 0 !in a.files && 0 !in b.files && Balanced(a, b, d, 0, 0) && Balanced(b, c, d, gone, 0)
    requires ChainLength(b.files, gone) == ChainLength(a.files, gone)
    ensures Balanced(a, c, d, gone, 0)
  {
    forall h: nat
      ensures StillThere(a.files, c.files, gone, 0, h)
    {
      assert StillThere(a.files, b.files, 0, 0, h) && StillThere(b.files, c.files, gone, 0, h);
    }
    assert StillThere(b.files, c.files, gone, 0, 0);
  }

  /** Chain `came` was made, and the directory then took its entry, or did not and the chain was freed. */
  lemma BalancedAdd(files: View, free: nat, files1: View, free1: nat, files': View, free': nat, d: nat, came: nat,
                    ok: bool)
    requires 0 !in files1 && came !in files && d in files && (came != 0 ==> came in files1)
    requires files1 == if came == 0 then files else files[came := files1[came]]
    requires free1 + ChainLength(files1, came) == free
    requires Balanced(Account(files1, free1), Account(files', free'), d, if ok then 0 else came, 0)
    requires ok ==> ChainLength(files', came) == ChainLength(files1, came)
    ensures Balanced(Account(files, free), Account(files', free'), d, 0, if ok then came else 0)
  {
    var gone, kept := if ok then 0 else came, if ok then came else 0;
    forall h: nat
      ensures StillThere(files, files', 0, kept, h)
    {
      assert StillThere(files1, files', gone, 0, h);
    }
    assert StillThere(files1, files', gone, 0, d) && StillThere(files1, files', gone, 0, 0);
    assert ChainLength(files1, d) == ChainLength(files, d);
  }

  /** The chain of the file that a write replaces. */
  ghost function Outgoing(slots: seq<Slot>, name: string, i: nat): nat {
    if First(slots, name, i) then slots[i].first else 0
  }

  /** A file of `len` bytes, with a name of `need` slots, can be added to a directory. */
  ghost predicate CanCreate(slots: seq<Slot>, need: nat, free: nat, len: nat, spc: nat)
    requires 0 < spc
  {
    && (len == 0 || free > 0)
    && Placeable(slots, need, Rest(free, Needed(len, SECTOR_SIZE * spc)), SLOTS_PER_SECTOR * spc)
  }

  /** Directory `d` has as many slots as the clusters of its chain hold. */
  ghost predicate SizedAt(dirs: Dirs, files: View, spc: nat, d: nat)
    requires d in dirs
  {
    d in files && |dirs[d]| == SlotsOf(|files[d].chain|, SLOTS_PER_SECTOR * spc)
  }

  function SlotsOf(clusters: nat, perCluster: nat): nat {
    clusters * perCluster
  }

  ghost predicate Sized(dirs: Dirs, files: View, spc: nat) {
    forall d {:trigger SizedAt(dirs, files, spc, d)} :: d in dirs ==> SizedAt(dirs, files, spc, d)
  }

  /** The directory and its chain are as long as before, or both have one more cluster. */
  ghost predicate DirGrew(slots: seq<Slot>, file: File, slots': seq<Slot>, file': File, more: nat) {
    || (|slots'| == |slots| && |file'.chain| == |file.chain|)
    || (|slots'| == |slots| + more && |file'.chain| == |file.chain| + 1)
  }

  lemma SizedGrown(dirs: Dirs, files: View, spc: nat, d: nat, dirs': Dirs, files': View)
    requires Sized(dirs, files, spc) && d in dirs && d in files && d in dirs' && d in files'
    requires dirs' == dirs[d := dirs'[d]] && files' == files[d := files'[d]]
    requires DirGrew(dirs[d], files[d], dirs'[d], files'[d], SLOTS_PER_SECTOR * spc)
    ensures Sized(dirs', files', spc)
  {
    OneMoreCluster(|files[d].chain|, SLOTS_PER_SECTOR * spc);
    forall k | k in dirs'
      ensures SizedAt(dirs', files', spc, k)
    {
      assert SizedAt(dirs, files, spc, k);
    }
  }

  /** No directory gets longer or shorter, and none has the chain `first`, the only one that comes or goes. */
  lemma SizedSame(dirs: Dirs, files: View, spc: nat, dirs': Dirs, files': View, first: nat)
    requires Sized(dirs, files, spc) && dirs'.Keys == dirs.Keys && first !in dirs
    requires forall k :: k in dirs ==> |dirs'[k]| == |dirs[k]|
    requires forall k :: k in files && k != first ==> k in files' && files'[k] == files[k]
    ensures Sized(dirs', files', spc)
  {
    forall k | k in dirs'
      ensures SizedAt(dirs', files', spc, k)
    {
      assert SizedAt(dirs, files, spc, k);
    }
  }

  lemma SizedPlaced(dirs: Dirs, files: View, spc: nat, d: nat, slots: seq<Slot>)
    requires Sized(dirs, files, spc) && d in dirs && |slots| == |dirs[d]|
    ensures Sized(dirs[d := slots], files, spc)
  {
    forall k | k in dirs
      ensures SizedAt(dirs[d := slots], files, spc, k)
    {
      assert SizedAt(dirs, files, spc, k);
    }
  }

  ghost predicate KeptFile(files: View, files': View, k: nat)
    requires k in files
  {
    k in files' && files'[k] == files[k]
  }

  /** All files but those at `a` and `b` are as before. */
  ghost predicate KeptBut(files: View, files': View, a: nat, b: nat) {
    forall k {:trigger KeptFile(files, files', k)} :: k in files && k != a && k != b ==> KeptFile(files, files', k)
  }

  lemma SwappedFiles(files: View, a: nat, b: nat, file: File, files': View)
    requires files' == if b == 0 then files - {a} else (files - {a})[b := file]
    ensures KeptBut(files, files', a, b)
  {
  }

  /** The chain of a file goes and another one comes; neither is that of a directory. */
  lemma ReplacedSizes(dirs: Dirs, refs: map<nat, Loc>, files: View, spc: nat, d: nat, i: nat, first: nat, dirs': Dirs,
                      files': View)
    requires Sized(dirs, files, spc) && DirsOk(dirs, refs, files.Keys) && 0 !in files
    requires d in dirs && i < |dirs[d]| && dirs[d][i].Entry? && !dirs[d][i].dir
    requires dirs'.Keys == dirs.Keys && forall k :: k in dirs ==> |dirs'[k]| == |dirs[k]|
    requires first !in files - {dirs[d][i].first}
    requires KeptBut(files, files', dirs[d][i].first, first)
    ensures Sized(dirs', files', spc)
  {
    assert SlotOk(dirs, refs, files.Keys, d, i);
    forall k | k in dirs'
      ensures SizedAt(dirs', files', spc, k)
    {
      assert SizedAt(dirs, files, spc, k) && k != dirs[d][i].first && k != first;
      assert KeptFile(files, files', k);
    }
  }

  lemma OneMoreCluster(n: nat, per: nat)
    ensures SlotsOf(n + 1, per) == SlotsOf(n, per) + per && SlotsOf(1, per) == per
  {
  }

  /** A search for the name does not find a directory. */
  ghost predicate NoDirectory(slots: seq<Slot>, name: string) {
    forall k: nat :: First(slots, name, k) ==> !slots[k].dir
  }

  /** The clusters of the file that a write replaces. */
  ghost function Reclaimed(slots: seq<Slot>, name: string, i: nat, files: View): nat {
    if First(slots, name, i) then ChainLength(files, slots[i].first) else 0
  }

  lemma NothingExcepted(dirs: Dirs, files: View, dirs': Dirs, files': View, d: nat, i: nat)
    requires d in dirs && FilesKept(dirs, files, dirs', files', Loc(d, |dirs[d]|))
    ensures FilesKept(dirs, files, dirs', files', Loc(d, i))
  {
  }

  lemma StandsReplaced(dirs: Dirs, d: nat, i: nat, e: Slot)
    requires d in dirs && e.Entry? && First(dirs[d], e.name, i)
    ensures Stands(dirs[d := dirs[d][i := e]], d, i, e)
  {
  }

  /** Like `files` but for directory `d`, which may have grown, and perhaps the new file `first`. */
  ghost predicate Later(files: View, d: nat, first: nat, files': View) {
    && (forall h :: h in files ==> h in files' && (h != d ==> files'[h] == files[h]))
    && first !in files && (first != 0 ==> first in files')
  }

  lemma UpdatedTwice(dirs: Dirs, d: nat, slots: seq<Slot>, slots': seq<Slot>)
    ensures dirs[d := slots][d := slots'] == dirs[d := slots']
  {
  }

  lemma LaterGrown(was: View, d: nat, first: nat, files: View, files': View)
    requires Later(was, d, first, files) && d in was && d in files' && files' == files[d := files'[d]]
    ensures Later(was, d, first, files') && BytesAt(files', first) == BytesAt(files, first)
    ensures ChainLength(files', first) == ChainLength(files, first)
  {
  }

  lemma LaterDropped(was: View, d: nat, first: nat, files: View)
    requires Later(was, d, first, files)
    ensures forall h :: h in was ==> h in files - {first} && (h != d ==> (files - {first})[h] == was[h])
  {
  }

  /** A new entry stands in the slots found for it. */
  lemma Created(dirs: Dirs, refs: map<nat, Loc>, files: View, d: nat, slots: seq<Slot>, at: nat, need: nat, e: Slot,
                dirs': Dirs, refs': map<nat, Loc>, files': View)
    requires DirsOk(dirs, refs, files.Keys) && d in dirs && Grown(dirs[d], slots)
    requires 1 <= need && at + need <= |slots| && Run(slots, at, at + need)
    requires e.Entry? && Absent(dirs[d], e.name) && Later(files, d, e.first, files')
    requires dirs' == dirs[d := Placed(slots, at, need, e)] && refs' == refs[e.first := Loc(d, at + need - 1)]
    ensures DirsOk(dirs', refs', files'.Keys)
    ensures Stands(dirs', d, at + need - 1, e) && FilesKept(dirs, files, dirs', files', Loc(d, |dirs[d]|))
  {
    EntryCreated(dirs, refs, files.Keys, files'.Keys, d, slots, at, need, e);
    PlacedStays(dirs, d, slots, at, need, e, Loc(d, |dirs[d]|));
    KeptFiles(dirs, refs, files, dirs', files', Loc(d, |dirs[d]|));
  }

  /** The directory may have grown, but nothing was added. */
  lemma NotCreated(dirs: Dirs, refs: map<nat, Loc>, files: View, d: nat, name: string, dirs': Dirs, files': View)
    requires DirsOk(dirs, refs, files.Keys) && d in dirs && Absent(dirs[d], name)
    requires d in dirs' && dirs' == dirs[d := dirs'[d]] && Grown(dirs[d], dirs'[d])
    requires forall h :: h in files ==> h in files' && (h != d ==> files'[h] == files[h])
    ensures DirsOk(dirs', refs, files'.Keys) && Absent(dirs'[d], name)
    ensures FilesKept(dirs, files, dirs', files', Loc(d, |dirs[d]|))
  {
    DirGrown(dirs, refs, files.Keys, files'.Keys, d, dirs'[d]);
    KeptFiles(dirs, refs, files, dirs', files', Loc(d, |dirs[d]|));
  }

  /** `e` stands at slot `i` of directory `d`, and a search for its name finds it there. */
  ghost predicate Stands(dirs: Dirs, d: nat, i: nat, e: Slot) {
    e.Entry? && d in dirs && First(dirs[d], e.name, i) && dirs[d][i] == e
  }

  /** A file keeps its entry and its bytes when another name of its directory is written. */
  lemma StillStands(dirs: Dirs, files: View, dirs': Dirs, files': View, d: nat, i: nat, e: Slot, other: string, j: nat)
    requires Stands(dirs, d, i, e) && !e.dir && other != e.name && DirsKept(dirs, dirs', d, other)
    requires FilesKept(dirs, files, dirs', files', Loc(d, j)) && First(dirs'[d], other, j)
    requires 0 !in files && 0 !in files'
    ensures Stands(dirs', d, i, e) && BytesAt(files', e.first) == BytesAt(files, e.first)
  {
    OtherNames(dirs[d], dirs'[d], other, e.name);
    assert i != j && FileKept(dirs, files, dirs', files', d, i);
  }

  /** The part of `bytes` that a read of `n` bytes at `offset` is meant to return. */
  function Slice(bytes: seq<byte>, offset: nat, n: nat): seq<byte> {
    if offset >= |bytes| then [] else bytes[offset..if offset + n < |bytes| then offset + n else |bytes|]
  }

  /**
   What was written is what a read of any part returns, exactly as long as offset and size do not wrap around in 32 bits
   or the file fills its last cluster; otherwise the read runs into the zeros behind the end of the file.
   */
  lemma WriteThenRead(bytes: seq<byte>, content: seq<byte>, pad: nat, offset: word, n: word, buf: seq<byte>)
    requires |bytes| < WORD_LIMIT && Holds(content, bytes, |bytes|, pad)
    requires Fetched(content, offset, Clamp(|bytes|, offset, n), buf)
    ensures buf == Slice(bytes, offset, n) <==> offset + n < WORD_LIMIT || offset >= |bytes| || pad == 0
  {
    assert bytes[..|bytes|] == bytes;
    if offset < |bytes| {
      WrappedSum(offset, n, |bytes|);
      var m := Clamp(|bytes|, offset, n);
      var end := if offset + m < |content| then offset + m else |content|;
      assert end <= |bytes| ==> content[offset..end] == bytes[offset..end];
    }
  }

  lemma WrappedSum(offset: word, n: word, len: word)
    requires offset < len
    ensures Clamp(len, offset, n)
      == if offset + n < WORD_LIMIT && offset + n > len then len - offset else n
  {
    assert offset + n >= WORD_LIMIT ==> (offset + n) % WORD_LIMIT == offset + n - WORD_LIMIT;
  }

  class Volume {
    const store: Store
    const root: nat
    var dirs: Dirs
    ghost var refs: map<nat, Loc>

    /** All but the sizes of directories. */
    ghost predicate Sound()
      reads this, store
    {
      store.Valid() && root in dirs && DirsOk(dirs, refs, store.files.Keys)
    }

    ghost predicate Valid()
      reads this, store
    {
      Sound() && Sized(dirs, store.files, store.spc)
    }

    constructor Format(total: nat, spc: nat, disk: seq<seq<byte>>)
      requires 3 <= total <= FatChains.EOC && 0 < spc < 256
      requires |disk| == total && forall c :: 0 <= c < total ==> |disk[c]| == SECTOR_SIZE * spc
      ensures Valid() && fresh(store) && root == 2 && dirs == map[2 := EndMarks(SLOTS_PER_SECTOR * spc)]
      ensures store.spc == spc && store.Free() == total - 3
    {
      store := new Store.Format(total, spc, disk);
      root, dirs, refs := 2, map[2 := EndMarks(SLOTS_PER_SECTOR * spc)], map[];
      new;
      OneMoreCluster(0, SLOTS_PER_SECTOR * spc);
    }

    method FindEntry(d: nat, name: string) returns (found: bool, i: nat)
      requires d in dirs && Ended(dirs[d])
      ensures if found then First(dirs[d], name, i) else Absent(dirs[d], name)
    {
      i := 0;
      while i < |dirs[d]|
        invariant i <= |dirs[d]|
        invariant forall j :: 0 <= j < i ==> !Named(dirs[d][j], name)
      {
        if dirs[d][i].End? {
          return false, 0;
        }
        if dirs[d][i].Entry? && dirs[d][i].name == name {
          return true, i;
        }
        i := i + 1;
      }
      return false, 0;
    }

    /** The first run of `need` vacant slots, or the shorter one at the end of the directory. */
    static method FindRun(slots: seq<Slot>, need: nat) returns (at: nat, have: nat)
      requires 1 <= need
      ensures at + have <= |slots| && Run(slots, at, at + have)
      ensures have == need ==> forall a :: 0 <= a < at ==> !Window(slots, a, need)
      ensures have != need ==> have < need && at + have == |slots| && !Room(slots, need)
    {
      at, have := 0, 0;
      var i := 0;
      while i < |slots|
        invariant i <= |slots| && at + have == i && have < need && Run(slots, at, i)
        invariant forall a: nat :: a + need <= i ==> !Window(slots, a, need)
      {
        if slots[i] == End || slots[i] == Erased {
          have := have + 1;
          if have >= need {
            return;
          }
        } else {
          at, have := i + 1, 0;
        }
        i := i + 1;
      }
    }

    /** Vacant slots for a name; the directory grows by a cluster when it has no run that is long enough. */
    method AllocSlots(d: nat, need: nat) returns (ok: bool, at: nat)
      requires store.Valid() && d in dirs && d in store.files && Ended(dirs[d]) && 1 <= need
      modifies store, this`dirs
      ensures store.Valid() && dirs.Keys == old(dirs.Keys) && dirs == old(dirs)[d := dirs[d]]
      ensures Grown(old(dirs)[d], dirs[d])
      ensures store.files.Keys == old(store.files.Keys)
      ensures store.files == old(store.files)[d := store.files[d]]
      ensures ok ==> at + need <= |dirs[d]| && Run(dirs[d], at, at + need)
      ensures ok <==> Placeable(old(dirs)[d], need, old(store.Free()), SLOTS_PER_SECTOR * store.spc)
      ensures DirGrew(old(dirs)[d], old(store.files)[d], dirs[d], store.files[d], SLOTS_PER_SECTOR * store.spc)
      ensures Balanced(old(store.Books()), store.Books(), d, 0, 0)
    {
      store.NoChainAtZero();
      var have;
      at, have := FindRun(dirs[d], need);
      ok := have >= need;
      assert ok ==> Window(dirs[d], at, need);
      if !ok {
        var grown := store.Grow(d);
        if grown {
          var more := SLOTS_PER_SECTOR * store.spc;
          ok := have + more >= need;
          RoomAtEnd(dirs[d], at, need, more);
          ExtendedRun(dirs[d], at, more, if ok then at + need else |dirs[d]|);
          dirs := dirs[d := dirs[d] + EndMarks(more)];
        }
      }
      BalancedGrow(old(store.files), old(store.Free()), store.files, store.Free(), d);
    }

    /** A file's chain is freed, its new one stored, and its entry rewritten. */
    method ReplaceChain(d: nat, i: nat, bytes: seq<byte>) returns (ok: bool, first: nat, ghost w: nat, ghost pad: nat)
      requires Sound() && d in dirs && i < |dirs[d]| && dirs[d][i].Entry? && !dirs[d][i].dir && |bytes| < WORD_LIMIT
      modifies this, store
      ensures Sound() && FilesKept(old(dirs), old(store.files), dirs, store.files, Loc(d, i))
      ensures 0 !in old(store.files) && first !in old(store.files) - {old(dirs)[d][i].first}
      ensures KeptBut(old(store.files), store.files, old(dirs)[d][i].first, first)
      ensures ok <==> bytes == [] || old(dirs)[d][i].first != 0 || old(store.Free()) > 0
      ensures !ok ==> dirs == old(dirs) && first == 0
      ensures ok ==>
        dirs == old(dirs)[d := old(dirs)[d][i := Entry(old(dirs)[d][i].name, false, first, |bytes|)]]
      ensures ok ==> Holds(BytesAt(store.files, first), bytes, w, pad)
      ensures ok ==> (w == |bytes| <==>
        old(store.Free()) + ChainLength(old(store.files), old(dirs)[d][i].first) >=
        Needed(|bytes|, SECTOR_SIZE * store.spc))
      ensures Balanced(old(store.Books()), store.Books(), d, old(dirs)[d][i].first, first)
    {
      var e := dirs[d][i];
      assert SlotOk(dirs, refs, store.files.Keys, d, i);
      store.Drop(e.first);
      ghost var free := store.Free();
      ok, first, w, pad := store.Put(bytes);
      ghost var file := if first == 0 then File([], []) else store.files[first];
      SwappedFiles(old(store.files), e.first, first, file, store.files);
      BalancedSwap(old(store.files), old(store.Free()), free, store.files, store.Free(), d, e.first, first, file);
      if ok {
        var e' := Entry(e.name, false, first, |bytes|);
        Replaced(dirs, refs, old(store.files), d, i, e', file, store.files);
        dirs, refs := dirs[d := dirs[d][i := e']], refs[first := Loc(d, i)];
      } else {
        KeptFiles(dirs, refs, old(store.files), dirs, store.files, Loc(d, i));
      }
    }

    /** The file at slot `i` of directory `d` gets new contents. */
    method ReplaceFile(d: nat, i: nat, bytes: seq<byte>) returns (ok: bool, first: nat, ghost w: nat, ghost pad: nat)
      requires Valid() && d in dirs && i < |dirs[d]| && dirs[d][i].Entry? && !dirs[d][i].dir && |bytes| < WORD_LIMIT
      modifies this, store
      ensures Valid() && FilesKept(old(dirs), old(store.files), dirs, store.files, Loc(d, i))
      ensures ok <==> bytes == [] || old(dirs)[d][i].first != 0 || old(store.Free()) > 0
      ensures !ok ==> dirs == old(dirs) && first == 0
      ensures ok ==>
        dirs == old(dirs)[d := old(dirs)[d][i := Entry(old(dirs)[d][i].name, false, first, |bytes|)]]
      ensures ok ==> Holds(BytesAt(store.files, first), bytes, w, pad)
      ensures ok ==> (w == |bytes| <==>
        old(store.Free()) + ChainLength(old(store.files), old(dirs)[d][i].first) >=
        Needed(|bytes|, SECTOR_SIZE * store.spc))
      ensures Balanced(old(store.Books()), store.Books(), d, old(dirs)[d][i].first, first)
    {
      ok, first, w, pad := ReplaceChain(d, i, bytes);
      ReplacedSizes(old(dirs), old(refs), old(store.files), store.spc, d, i, first, dirs, store.files);
    }

    /** The file that a search for the name finds at slot `i` gets new contents. */
    method Rewrite(d: nat, name: string, i: nat, bytes: seq<byte>)
      returns (ok: bool, first: nat, ghost w: nat, ghost pad: nat)
      requires Valid() && d in dirs && First(dirs[d], name, i) && !dirs[d][i].dir && |bytes| < WORD_LIMIT
      modifies this, store
      ensures Valid() && FilesKept(old(dirs), old(store.files), dirs, store.files, Loc(d, i))
      ensures DirsKept(old(dirs), dirs, d, name)
      ensures ok <==> bytes == [] || old(dirs)[d][i].first != 0 || old(store.Free()) > 0
      ensures !ok ==> first == 0
      ensures ok ==>
        && Stands(dirs, d, i, Entry(name, false, first, |bytes|)) && Holds(BytesAt(store.files, first), bytes, w, pad)
        && (w == |bytes| <==>
            old(store.Free()) + ChainLength(old(store.files), old(dirs)[d][i].first) >=
            Needed(|bytes|, SECTOR_SIZE * store.spc))
      ensures Balanced(old(store.Books()), store.Books(), d, old(dirs)[d][i].first, first)
    {
      ok, first, w, pad := ReplaceFile(d, i, bytes);
      ReplacedKept(old(dirs)[d], i, Entry(name, false, first, |bytes|));
      StandsReplaced(old(dirs), d, i, Entry(name, false, first, |bytes|));
    }

    /** Directory `d` is as in `was` but for vacant slots at its end. */
    ghost predicate GrownSince(d: nat, was: Dirs)
      reads this
    {
      root in was && d in was && d in dirs && dirs == was[d := dirs[d]] && Grown(was[d], dirs[d])
    }

    /** Writes the slots of a new name. */
    method PlaceEntry(d: nat, at: nat, need: nat, e: Slot, ghost was: Dirs, ghost files: View) returns (i: nat)
      requires store.Valid() && DirsOk(was, refs, files.Keys) && GrownSince(d, was)
      requires e.Entry? && Absent(was[d], e.name) && Later(files, d, e.first, store.files)
      requires 1 <= need && at + need <= |dirs[d]| && Run(dirs[d], at, at + need)
      requires Sized(dirs, store.files, store.spc)
      modifies this
      ensures Valid() && Stands(dirs, d, i, e)
      ensures FilesKept(was, files, dirs, store.files, Loc(d, |was[d]|)) && DirsKept(was, dirs, d, e.name)
    {
      i := at + need - 1;
      var slots := Placed(dirs[d], at, need, e);
      UpdatedTwice(was, d, dirs[d], slots);
      PlacedKept(was[d], dirs[d], at, need, e);
      Created(was, refs, files, d, dirs[d], at, need, e, dirs[d := slots], refs[e.first := Loc(d, i)], store.files);
      SizedPlaced(dirs, store.files, store.spc, d, slots);
      dirs, refs := dirs[d := slots], refs[e.first := Loc(d, i)];
    }

    /** Frees the file that found no place in its directory. */
    method GiveUp(d: nat, e: Slot, ghost was: Dirs, ghost files: View)
      requires store.Valid() && DirsOk(was, refs, files.Keys) && GrownSince(d, was)
      requires e.Entry? && Absent(was[d], e.name) && Later(files, d, e.first, store.files)
      requires Sized(dirs, store.files, store.spc)
      modifies store
      ensures Valid() && d in dirs && Absent(dirs[d], e.name)
      ensures FilesKept(was, files, dirs, store.files, Loc(d, |was[d]|)) && DirsKept(was, dirs, d, e.name)
      ensures Balanced(old(store.Books()), store.Books(), d, e.first, 0)
    {
      store.Drop(e.first);
      BalancedSwap(old(store.files), old(store.Free()), store.Free(), store.files, store.Free(), d, e.first, 0,
                   File([], []));
      LaterDropped(files, d, e.first, old(store.files));
      NotCreated(was, refs, files, d, e.name, dirs, store.files);
      SizedSame(dirs, old(store.files), store.spc, dirs, store.files, e.first);
    }

    /** An entry for the file `first`, or that file freed when the directory has no room. */
    method AddEntry(d: nat, need: nat, e: Slot, ghost was: View) returns (ok: bool, i: nat)
      requires store.Valid() && root in dirs && DirsOk(dirs, refs, was.Keys) && d in dirs && 1 <= need
      requires e.Entry? && Absent(dirs[d], e.name) && Later(was, d, e.first, store.files)
      requires Sized(dirs, store.files, store.spc)
      modifies this, store
      ensures Valid()
      ensures FilesKept(old(dirs), was, dirs, store.files, Loc(d, |old(dirs)[d]|))
      ensures DirsKept(old(dirs), dirs, d, e.name)
      ensures !ok ==> d in dirs && Absent(dirs[d], e.name)
      ensures ok ==> Stands(dirs, d, i, e) && BytesAt(store.files, e.first) == BytesAt(old(store.files), e.first)
      ensures ok ==> ChainLength(store.files, e.first) == ChainLength(old(store.files), e.first)
      ensures ok <==> Placeable(old(dirs)[d], need, old(store.Free()), SLOTS_PER_SECTOR * store.spc)
      ensures Balanced(old(store.Books()), store.Books(), d, if ok then 0 else e.first, 0)
    {
      store.NoChainAtZero();
      i := 0;
      var at;
      ok, at := AllocSlots(d, need);
      LaterGrown(was, d, e.first, old(store.files), store.files);
      SizedGrown(old(dirs), old(store.files), store.spc, d, dirs, store.files);
      if ok {
        i := PlaceEntry(d, at, need, e, old(dirs), was);
      } else {
        ghost var grown := store.Books();
        store.NoChainAtZero();
        GiveUp(d, e, old(dirs), was);
        BalancedThen(old(store.Books()), grown, store.Books(), d, e.first);
      }
    }

    /** A new file; its name takes `need` slots. Without room for them its chain is freed again. */
    method CreateFile(d: nat, name: string, need: nat, bytes: seq<byte>)
      returns (ok: bool, i: nat, first: nat, ghost w: nat, ghost pad: nat)
      requires Valid() && d in dirs && Absent(dirs[d], name) && 1 <= need && |bytes| < WORD_LIMIT
      modifies this, store
      ensures Valid()
      ensures FilesKept(old(dirs), old(store.files), dirs, store.files, Loc(d, |old(dirs)[d]|))
      ensures DirsKept(old(dirs), dirs, d, name)
      ensures ok <==> CanCreate(old(dirs)[d], need, old(store.Free()), |bytes|, store.spc)
      ensures !ok ==> d in dirs && Absent(dirs[d], name)
      ensures ok ==>
        && Stands(dirs, d, i, Entry(name, false, first, |bytes|)) && Holds(BytesAt(store.files, first), bytes, w, pad)
        && (w == |bytes| <==> old(store.Free()) >= Needed(|bytes|, SECTOR_SIZE * store.spc))
      ensures Balanced(old(store.Books()), store.Books(), d, 0, if ok then first else 0)
    {
      i := 0;
      ok, first, w, pad := store.Put(bytes);
      SizedSame(dirs, old(store.files), store.spc, dirs, store.files, first);
      if ok {
        ghost var files, free := store.files, store.Free();
        ok, i := AddEntry(d, need, Entry(name, false, first, |bytes|), old(store.files));
        BalancedAdd(old(store.files), old(store.Free()), files, free, store.files, store.Free(), d, first, ok);
      } else {
        NotCreated(dirs, refs, store.files, d, name, dirs, store.files);
      }
    }

    /**
     Writes a whole file: an existing one gets new contents, a new one an entry of `need` slots. All other files keep
     their entries, clusters and bytes.
     */
    method WriteFile(dir: nat, name: string, need: nat, bytes: seq<byte>)
      returns (ok: bool, ghost i: nat, ghost first: nat, ghost w: nat, ghost pad: nat)
      requires Valid() && (dir == 0 || dir in dirs) && 1 <= need && |bytes| < WORD_LIMIT
      requires NoDirectory(dirs[if dir == 0 then root else dir], name)
      modifies this, store
      ensures Valid()
      ensures
        var d := if dir == 0 then root else dir;
        && FilesKept(old(dirs), old(store.files), dirs, store.files, Loc(d, i)) && DirsKept(old(dirs), dirs, d, name)
        && (First(old(dirs)[d], name, i) || Absent(old(dirs)[d], name))
        && (ok <==> if First(old(dirs)[d], name, i)
              then bytes == [] || old(dirs)[d][i].first != 0 || old(store.Free()) > 0
              else CanCreate(old(dirs)[d], need, old(store.Free()), |bytes|, store.spc))
        && (ok ==> Stands(dirs, d, i, Entry(name, false, first, |bytes|)))
        && (ok ==> Holds(BytesAt(store.files, first), bytes, w, pad))
        && (ok ==> (w == |bytes| <==>
            old(store.Free()) + Reclaimed(old(dirs)[d], name, i,
                old(store.files)) >= Needed(|bytes|, SECTOR_SIZE * store.spc)))
        && Balanced(old(store.Books()), store.Books(), d,
                    Outgoing(old(dirs)[d], name, i), if ok then first else 0)
    {
      var d := if dir == 0 then root else dir;
      var found, at := FindEntry(d, name);
      var f, k;
      if found {
        ok, f, w, pad := Rewrite(d, name, at, bytes);
        i, first := at, f;
      } else {
        ok, k, f, w, pad := CreateFile(d, name, need, bytes);
        i, first := k, f;
        NothingExcepted(old(dirs), old(store.files), dirs, store.files, d, i);
      }
    }

    /** Two files of different names that are written one after the other are both there, each with its own bytes. */
    method WriteTwo(dir: nat, name: string, need: nat, bytes: seq<byte>, name': string, need': nat, bytes': seq<byte>)
      returns (ok: bool, ghost i: nat, ghost first: nat, ghost w: nat, ghost pad: nat,
               ghost i': nat, ghost first': nat, ghost w': nat, ghost pad': nat)
      requires Valid() && (dir == 0 || dir in dirs) && 1 <= need && 1 <= need'
      requires |bytes| < WORD_LIMIT && |bytes'| < WORD_LIMIT && name != name'
      requires NoDirectory(dirs[if dir == 0 then root else dir], name)
      requires NoDirectory(dirs[if dir == 0 then root else dir], name')
      modifies this, store
      ensures Valid()
      ensures
        var d := if dir == 0 then root else dir;
        ok ==>
          && Stands(dirs, d, i, Entry(name, false, first, |bytes|)) && Holds(BytesAt(store.files, first), bytes, w, pad)
          && Stands(dirs, d, i', Entry(name', false, first', |bytes'|))
          && Holds(BytesAt(store.files, first'), bytes', w', pad')
    {
      var d := if dir == 0 then root else dir;
      i', first', w', pad' := 0, 0, 0, 0;
      ok, i, first, w, pad := WriteFile(dir, name, need, bytes);
      OtherNames(old(dirs)[d], dirs[d], name, name');
      if ok {
        ghost var was, files := dirs, store.files;
        store.NoChainAtZero();
        ok, i', first', w', pad' := WriteFile(dir, name', need', bytes');
        if ok {
          store.NoChainAtZero();
          StillStands(was, files, dirs, store.files, d, i, Entry(name, false, first, |bytes|), name', i');
        }
      }
    }

    /** Reads from the file at slot `i` of directory `d`. */
    method ReadFile(d: nat, i: nat, offset: word, n: word) returns (buf: seq<byte>)
      requires Valid() && d in dirs && i < |dirs[d]| && dirs[d][i].Entry? && !dirs[d][i].dir
      ensures Fetched(BytesAt(store.files, dirs[d][i].first), offset, Clamp(dirs[d][i].size, offset, n), buf)
    {
      assert SlotOk(dirs, refs, store.files.Keys, d, i);
      buf := store.Read(dirs[d][i].first, dirs[d][i].size, offset, n);
    }

    /**
     A file that was written with enough clusters is found under its name, and a read of any part of it returns that
     part, exactly as long as offset and size do not wrap around or the file fills its last cluster.
     */
    method WriteAndRead(dir: nat, name: string, need: nat, bytes: seq<byte>, offset: word, n: word)
      returns (ok: bool, found: bool, buf: seq<byte>, ghost i: nat, ghost w: nat, ghost pad: nat)
      requires Valid() && (dir == 0 || dir in dirs) && 1 <= need && |bytes| < WORD_LIMIT
      requires NoDirectory(dirs[if dir == 0 then root else dir], name)
      modifies this, store
      ensures Valid() && (ok ==> found)
      ensures
        var slots := old(dirs)[if dir == 0 then root else dir];
        ok ==> (w == |bytes| <==>
          old(store.Free()) + Reclaimed(slots, name, i, old(store.files)) >= Needed(|bytes|, SECTOR_SIZE * store.spc))
      ensures ok && w == |bytes| ==>
        (buf == Slice(bytes, offset, n) <==> offset + n < WORD_LIMIT || offset >= |bytes| || pad == 0)
    {
      found, buf := false, [];
      ghost var first;
      ok, i, first, w, pad := WriteFile(dir, name, need, bytes);
      if ok {
        var d, at := if dir == 0 then root else dir, 0;
        assert Ended(dirs[d]);
        found, at := FindEntry(d, name);
        assert found && at == i;
        buf := ReadFile(d, at, offset, n);
        if w == |bytes| {
          WriteThenRead(bytes, BytesAt(store.files, first), pad, offset, n, buf);
        }
      }
    }
  }

  /** On a volume with one free cluster of 512 bytes, the write of 600 bytes reports success and keeps 512 of them. */
  method WritePart() returns (v: Volume, ok: bool, ghost w: nat)
    ensures fresh(v) && v.Valid() && ok && w < 600
  {
    var bytes: seq<byte> := seq(600, _ => 65);
    v := new Volume.Format(4, 1, seq(4, _ => Zeros(SECTOR_SIZE)));
    assert Window(v.dirs[2], 0, 1);
    assert Needed(600, SECTOR_SIZE) == 2;
    ghost var i, first, pad;
    ok, i, first, w, pad := v.WriteFile(0, "A", 1, bytes);
    assert Absent(EndMarks(SLOTS_PER_SECTOR), "A");
  }
}
