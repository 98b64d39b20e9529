/** FAT directories as values: the slots that a walk along a directory's chain visits, and what its entries refer to. */
module FatDirs {
  import opened Sectors

  /** A directory slot: 0x00 ends the directory, 0xE5 marks an erased slot, a part belongs to a long name. */
  datatype Slot = End | Erased | Part | Entry(name: string, dir: bool, first: nat, size: word)

  datatype Loc = Loc(dir: nat, index: nat)

  type Dirs = map<nat, seq<Slot>>

  ghost predicate Vacant(s: Slot) {
    s.End? || s.Erased?
  }

  /** Nothing follows an end mark. */
  ghost predicate Ended(slots: seq<Slot>) {
    forall i, j :: 0 <= i < j < |slots| && slots[i] == End ==> slots[j] == End
  }

  ghost predicate Named(s: Slot, name: string) {
    s.Entry? && s.name == name
  }

  /** Slot `i` is the first with that name. */
  ghost predicate First(slots: seq<Slot>, name: string, i: nat) {
    i < |slots| && Named(slots[i], name) && forall j :: 0 <= j < i ==> !Named(slots[j], name)
  }

  ghost predicate Absent(slots: seq<Slot>, name: string) {
    forall j :: 0 <= j < |slots| ==> !Named(slots[j], name)
  }

  /** Slots `lo` to before `hi` are vacant, and the slot before them is not. */
  ghost predicate Run(slots: seq<Slot>, lo: nat, hi: nat) {
    && lo <= hi <= |slots|
    && (forall j :: lo <= j < hi ==> Vacant(slots[j]))
    && (lo > 0 ==> !Vacant(slots[lo - 1]))
  }

  /** The `n` slots from `a` on are vacant. */
  ghost predicate Window(slots: seq<Slot>, a: nat, n: nat) {
    a + n <= |slots| && forall j :: a <= j < a + n ==> Vacant(slots[j])
  }

  ghost predicate Room(slots: seq<Slot>, n: nat) {
    exists a: nat :: Window(slots, a, n)
  }

  /** There is room for a name of `need` slots, perhaps in `more` slots of one more cluster. */
  ghost predicate Placeable(slots: seq<Slot>, need: nat, free: nat, more: nat) {
    Room(slots, need) || (free > 0 && Room(slots + EndMarks(more), need))
  }

  /**
   A directory without room, whose last run starts at `at`, has room with `more` slots exactly if that run then has.
   */
  lemma RoomAtEnd(slots: seq<Slot>, at: nat, need: nat, more: nat)
    requires 1 <= need && Run(slots, at, |slots|) && !Room(slots, need)
    ensures Room(slots + EndMarks(more), need) <==> at + need <= |slots| + more
  {
    var longer := slots + EndMarks(more);
    if at + need <= |slots| + more {
      assert Window(longer, at, need);
    }
    forall a: nat | Window(longer, a, need)
      ensures at <= a
    {
      if a < at {
        WindowBefore(slots, a, at, need, more);
      }
    }
  }

  /** A window that starts before the last run ends before it. */
  lemma WindowBefore(slots: seq<Slot>, a: nat, at: nat, need: nat, more: nat)
    requires Run(slots, at, |slots|) && a < at
    ensures Window(slots + EndMarks(more), a, need) ==> Window(slots, a, need)
  {
    var longer := slots + EndMarks(more);
    assert longer[at - 1] == slots[at - 1];
    assert forall j :: 0 <= j < at ==> longer[j] == slots[j];
  }

  function Parts(n: nat): (s: seq<Slot>)
    ensures |s| == n && forall i :: 0 <= i < n ==> s[i] == Part
  {
    seq(n, _ => Part)
  }

  function EndMarks(n: nat): (s: seq<Slot>)
    ensures |s| == n && forall i :: 0 <= i < n ==> s[i] == End
  {
    seq(n, _ => End)
  }

  /** The slots from `at` on replaced by `need - 1` parts of the name and its entry. */
  function Placed(slots: seq<Slot>, at: nat, need: nat, e: Slot): (r: seq<Slot>)
    requires 1 <= need && at + need <= |slots|
    ensures |r| == |slots|
    ensures forall j :: 0 <= j < |r| ==>
      r[j] == if j < at || j >= at + need then slots[j] else if j < at + need - 1 then Part else e
  {
    slots[..at] + Parts(need - 1) + [e] + slots[at + need..]
  }

  /** A name placed in the run found for it is found again, no entry is lost, and the end mark stays the end. */
  lemma PlacedFound(slots: seq<Slot>, at: nat, need: nat, e: Slot)
    requires Ended(slots) && 1 <= need && at + need <= |slots| && Run(slots, at, at + need)
    requires e.Entry? && Absent(slots, e.name)
    ensures Ended(Placed(slots, at, need, e)) && First(Placed(slots, at, need, e), e.name, at + need - 1)
  {
    var r := Placed(slots, at, need, e);
    forall i, j | 0 <= i < j < |r| && r[i] == End
      ensures r[j] == End
    {
    }
  }

  lemma ExtendedRun(slots: seq<Slot>, lo: nat, n: nat, hi: nat)
    requires Run(slots, lo, |slots|) && Ended(slots) && |slots| <= hi <= |slots| + n
    ensures Ended(slots + EndMarks(n)) && Run(slots + EndMarks(n), lo, hi)
  {
  }

  // ---- what entries refer to ----

  /** A file entry refers to a chain of its own that is no directory. */
  ghost predicate SlotOk(dirs: Dirs, refs: map<nat, Loc>, heads: set<nat>, d: nat, i: nat)
    requires d in dirs && i < |dirs[d]|
  {
    var e := dirs[d][i];
    e.Entry? && !e.dir && e.first != 0 ==>
      e.first in heads && e.first !in dirs && e.first in refs && refs[e.first] == Loc(d, i)
  }

  /** Every file entry but the one at `hole` refers to a chain of its own. */
  ghost predicate EntriesOk(dirs: Dirs, refs: map<nat, Loc>, heads: set<nat>, hole: Loc) {
    forall d, i {:trigger SlotOk(dirs, refs, heads, d, i)} ::
      d in dirs && 0 <= i < |dirs[d]| && Loc(d, i) != hole ==> SlotOk(dirs, refs, heads, d, i)
  }

  ghost predicate DirsOk(dirs: Dirs, refs: map<nat, Loc>, heads: set<nat>) {
    && (forall d :: d in dirs ==> d in heads && Ended(dirs[d]))
    && (forall d, i {:trigger SlotOk(dirs, refs, heads, d, i)} ::
        d in dirs && 0 <= i < |dirs[d]| ==> SlotOk(dirs, refs, heads, d, i))
  }

  /** The chain of one file entry goes; all other entries keep theirs. */
  lemma FileDropped(dirs: Dirs, refs: map<nat, Loc>, heads: set<nat>, d: nat, i: nat)
    requires DirsOk(dirs, refs, heads) && 0 !in heads && d in dirs && i < |dirs[d]|
    requires dirs[d][i].Entry? && !dirs[d][i].dir
    ensures EntriesOk(dirs, refs, heads - {dirs[d][i].first}, Loc(d, i))
    ensures forall k :: k in dirs ==> k in heads - {dirs[d][i].first}
  {
    assert SlotOk(dirs, refs, heads, d, i);
    forall k, j | k in dirs && 0 <= j < |dirs[k]| && Loc(k, j) != Loc(d, i)
      ensures SlotOk(dirs, refs, heads - {dirs[d][i].first}, k, j)
    {
      assert SlotOk(dirs, refs, heads, k, j);
    }
  }

  /** One slot is rewritten to refer to a new chain, or to none. */
  lemma EntryWritten(dirs: Dirs, refs: map<nat, Loc>, heads: set<nat>, heads': set<nat>, d: nat, i: nat, e: Slot)
    requires EntriesOk(dirs, refs, heads, Loc(d, i)) && d in dirs && i < |dirs[d]|
    requires forall k :: k in dirs ==> k in heads && Ended(dirs[k])
    requires forall h :: h in heads ==> h in heads'
    requires e.Entry? && dirs[d][i].Entry? && (e.first != 0 ==> e.first in heads' && e.first !in heads)
    ensures DirsOk(dirs[d := dirs[d][i := e]], refs[e.first := Loc(d, i)], heads')
  {
    var dirs', refs' := dirs[d := dirs[d][i := e]], refs[e.first := Loc(d, i)];
    forall k, j | k in dirs' && 0 <= j < |dirs'[k]|
      ensures SlotOk(dirs', refs', heads', k, j)
    {
      if Loc(k, j) != Loc(d, i) {
        assert SlotOk(dirs, refs, heads, k, j);
      }
    }
    assert Ended(dirs'[d]);
  }

  /** A name is placed in a run of vacant slots of a directory, which may have grown by some. */
  lemma EntryCreated(dirs: Dirs, refs: map<nat, Loc>, heads: set<nat>, heads': set<nat>, d: nat,
                     slots: seq<Slot>, at: nat, need: nat, e: Slot)
    requires DirsOk(dirs, refs, heads) && d in dirs && dirs[d] <= slots && Ended(slots)
    requires forall j :: |dirs[d]| <= j < |slots| ==> slots[j] == End
    requires forall h :: h in heads ==> h in heads'
    requires e.Entry? && Absent(dirs[d], e.name) && (e.first != 0 ==> e.first in heads' && e.first !in heads)
    requires 1 <= need && at + need <= |slots| && Run(slots, at, at + need)
    ensures DirsOk(dirs[d := Placed(slots, at, need, e)], refs[e.first := Loc(d, at + need - 1)], heads')
    ensures First(Placed(slots, at, need, e), e.name, at + need - 1)
  {
    var new_ := Placed(slots, at, need, e);
    var dirs', refs' := dirs[d := new_], refs[e.first := Loc(d, at + need - 1)];
    PlacedFound(slots, at, need, e);
    forall k, j | k in dirs' && 0 <= j < |dirs'[k]|
      ensures SlotOk(dirs', refs', heads', k, j)
    {
      if k in dirs && j < |dirs[k]| {
        assert SlotOk(dirs, refs, heads, k, j);
      }
    }
  }

  /** A directory with vacant slots added at its end. */
  ghost predicate Grown(slots: seq<Slot>, slots': seq<Slot>) {
    slots <= slots' && Ended(slots') && forall j :: |slots| <= j < |slots'| ==> slots'[j] == End
  }

  lemma DirGrown(dirs: Dirs, refs: map<nat, Loc>, heads: set<nat>, heads': set<nat>, d: nat, slots: seq<Slot>)
    requires DirsOk(dirs, refs, heads) && d in dirs && Grown(dirs[d], slots)
    requires forall h :: h in heads ==> h in heads'
    ensures DirsOk(dirs[d := slots], refs, heads')
    ensures forall name :: Absent(dirs[d], name) ==> Absent(slots, name)
  {
    var dirs' := dirs[d := slots];
    forall k, j | k in dirs' && 0 <= j < |dirs'[k]|
      ensures SlotOk(dirs', refs, heads', k, j)
    {
      if k in dirs && j < |dirs[k]| {
        assert SlotOk(dirs, refs, heads, k, j);
      }
    }
  }

  /** All entries of all directories, but for one, stand where they stood. */
  ghost predicate EntriesStay(dirs: Dirs, dirs': Dirs, except: Loc) {
    forall k, j {:trigger SameSlot(dirs, dirs', k, j)} ::
      k in dirs && 0 <= j < |dirs[k]| && Loc(k, j) != except && dirs[k][j].Entry? ==> SameSlot(dirs, dirs', k, j)
  }

  ghost predicate SameSlot(dirs: Dirs, dirs': Dirs, d: nat, i: nat)
    requires d in dirs && i < |dirs[d]|
  {
    d in dirs' && i < |dirs'[d]| && dirs'[d][i] == dirs[d][i]
  }

  lemma PlacedStays(dirs: Dirs, d: nat, slots: seq<Slot>, at: nat, need: nat, e: Slot, except: Loc)
    requires d in dirs && Grown(dirs[d], slots) && 1 <= need && at + need <= |slots| && Run(slots, at, at + need)
    ensures EntriesStay(dirs, dirs[d := Placed(slots, at, need, e)], except)
  {
  }

  // ---- the other names of a directory ----

  predicate Other(s: Slot, name: string) {
    s.Entry? && s.name != name
  }

  /** The entries of other names than `name` are the same, in the same slots. */
  ghost predicate SlotsKept(slots: seq<Slot>, slots': seq<Slot>, name: string) {
    && |slots| <= |slots'|
    && (forall j :: 0 <= j < |slots| && Other(slots[j], name) ==> slots'[j] == slots[j])
    && (forall j :: 0 <= j < |slots'| && Other(slots'[j], name) ==> j < |slots| && slots[j] == slots'[j])
  }

  /** All directories are the same but for entries of `name` in directory `d` and vacant slots. */
  ghost predicate DirsKept(dirs: Dirs, dirs': Dirs, d: nat, name: string) {
    d in dirs && d in dirs' && dirs' == dirs[d := dirs'[d]] && SlotsKept(dirs[d], dirs'[d], name)
  }

  /** A search for another name finds what it found before. */
  lemma OtherNames(slots: seq<Slot>, slots': seq<Slot>, name: string, other: string)
    requires SlotsKept(slots, slots', name) && other != name
    ensures Absent(slots', other) <==> Absent(slots, other)
    ensures forall i: nat :: First(slots', other, i) <==> First(slots, other, i)
    ensures forall i: nat :: First(slots, other, i) ==> slots'[i] == slots[i]
  {
    forall j | 0 <= j < |slots'|
      ensures Named(slots'[j], other) <==> j < |slots| && Named(slots[j], other)
    {
      assert Named(slots'[j], other) ==> Other(slots'[j], name);
      assert j < |slots| && Named(slots[j], other) ==> Other(slots[j], name);
    }
  }

  lemma PlacedKept(slots: seq<Slot>, grown: seq<Slot>, at: nat, need: nat, e: Slot)
    requires Grown(slots, grown) && 1 <= need && at + need <= |grown| && Run(grown, at, at + need) && e.Entry?
    ensures SlotsKept(slots, Placed(grown, at, need, e), e.name)
  {
  }

  lemma ReplacedKept(slots: seq<Slot>, i: nat, e: Slot)
    requires e.Entry? && i < |slots| && Named(slots[i], e.name)
    ensures SlotsKept(slots, slots[i := e], e.name)
  {
  }
}
