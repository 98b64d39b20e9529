/** The stack that a new user task gets (task.c): four pages of its own, on which its arguments are then pushed. */
module UserStack {
  import opened PageTables
  import opened Paging
  import opened HeapBreak
  import opened UserMemory
  import opened ArgStack
  import Pmm

  const LOW_PAGE := STACK_LOW / 4096
  const STACK_PAGES := 4
  const STACK_TABLE := LOW_PAGE / 1024
  const RAM_SIZE := 4096 * Pmm.MAX_BLOCKS

  /** The pages of the stack lie behind one directory entry. */
  lemma OneTable(k: nat)
    requires k < STACK_PAGES
    ensures (LOW_PAGE + k) / 1024 == STACK_TABLE && LOW_PAGE + k < PAGES
  {
  }

  /** The first pages of the stack are mapped to these frames, which are different ones and in use. */
  ghost predicate Laid(mem: Memory, dir: nat, frames: seq<nat>, used: seq<bool>) {
    && |frames| <= STACK_PAGES && |used| == Pmm.MAX_BLOCKS
    && (forall k :: 0 <= k < |frames| ==> LaidAt(mem, dir, frames, used, k))
    && (forall k, l :: 0 <= k < l < |frames| ==> frames[k] != frames[l])
  }

  ghost predicate LaidAt(mem: Memory, dir: nat, frames: seq<nat>, used: seq<bool>, k: nat)
    requires k < |frames| <= STACK_PAGES
  {
    0 < frames[k] < |used| && used[frames[k]] && Translation(mem, dir, LOW_PAGE + k) == Entry(frames[k], USER_FLAGS)
  }

  lemma LaidMore(m: Memory, m': Memory, dirs: set<nat>, d: nat, frames: seq<nat>, used: seq<bool>, f: nat,
                 used': seq<bool>)
    requires Laid(m, d, frames, used) && |frames| < STACK_PAGES && d in dirs && 0 < f < |used| && !used[f]
    requires Isolated(m, m', dirs, d, LOW_PAGE + |frames|)
    requires Translation(m', d, LOW_PAGE + |frames|) == Entry(f, USER_FLAGS)
    requires Machine.OnlyTaken(used[f := true], used')
    ensures Laid(m', d, frames + [f], used')
  {
    var more := frames + [f];
    forall k | 0 <= k < |more|
      ensures LaidAt(m', d, more, used', k) && (k < |frames| ==> more[k] != f)
    {
      assert k < |frames| ==> LaidAt(m, d, frames, used, k);
    }
  }

  /** A stack laid out in full is a place to push arguments on. */
  lemma LaidIsValid(mem: Memory, dir: nat, frames: seq<nat>, used: seq<bool>)
    requires Laid(mem, dir, frames, used) && |frames| == STACK_PAGES
    ensures Injective(StackPages(mem, dir), RAM_SIZE) && AllMapped(StackPages(mem, dir), STACK_LOW, STACK_TOP)
  {
    var pages := StackPages(mem, dir);
    forall p | LOW_PAGE <= p < LOW_PAGE + STACK_PAGES
      ensures p in pages && pages[p] == frames[p - LOW_PAGE] && 0 < pages[p] < Pmm.MAX_BLOCKS
    {
      assert LaidAt(mem, dir, frames, used, p - LOW_PAGE) && LOW_PAGE + (p - LOW_PAGE) == p;
    }
    forall a | STACK_LOW <= a < STACK_TOP
      ensures Mapped(pages, a)
    {
      assert LOW_PAGE <= a / UserMemory.PAGE < LOW_PAGE + STACK_PAGES;
    }
  }

  /** What has been mapped of the stack of directory `d` since memory was `m0` and `free` frames were free. */
  ghost predicate Laying(mem: Memory, used: seq<bool>, dirs: set<nat>, d: nat, m0: Memory, frames: seq<nat>,
                         free: nat) {
    && Laid(mem, d, frames, used) && |FreeFrames(used)| == Left(free, |frames|)
    && Confined(m0, mem, dirs, d, LOW_PAGE, LOW_PAGE + |frames|)
    && (if frames == [] then mem == m0 else Settled(mem, dirs, d, STACK_TABLE))
  }

  lemma LayingOn(m: Memory, used: seq<bool>, m': Memory, used': seq<bool>, dirs: set<nat>, d: nat, m0: Memory,
                 frames: seq<nat>, free: nat, f: nat)
    requires Laying(m, used, dirs, d, m0, frames, free) && |frames| < STACK_PAGES && d in dirs && 0 < f < |used|
    requires !used[f] && Machine.OnlyTaken(used[f := true], used') && Left(free, |frames|) > 0
    requires |FreeFrames(used')| == Left(|FreeFrames(used)|, 1) && Settled(m', dirs, d, STACK_TABLE)
    requires Isolated(m, m', dirs, d, LOW_PAGE + |frames|)
    requires Translation(m', d, LOW_PAGE + |frames|) == Entry(f, USER_FLAGS)
    ensures Laying(m', used', dirs, d, m0, frames + [f], free)
  {
    LaidMore(m, m', dirs, d, frames, used, f, used');
    ConfinedStep(m0, m, m', dirs, d, LOW_PAGE, LOW_PAGE + |frames|, LOW_PAGE + |frames|);
  }

  /**
   What the task has come to own since memory was `m0` and the frames `used0` were used: frames and tables that were
   free, and at most one directory entry of its own.
   */
  ghost predicate Holding(mem: Memory, used: seq<bool>, owned: seq<nat>, dirs: set<nat>, d: nat, ram: set<nat>,
                          m0: Memory, used0: seq<bool>) {
    && Machine.OnlyFresh(m0, used0, mem) && Machine.OnlyTaken(used0, used)
    && (forall k :: 0 <= k < |owned| ==> owned[k] < |used0| && !used0[owned[k]])
    && OwnedOk(multiset(owned), mem, ram, used) && RowsKept(m0, mem, dirs, d, STACK_TABLE)
  }

  lemma HoldingMore(m: Memory, used: seq<bool>, owned: seq<nat>, m': Memory, used': seq<bool>, dirs: set<nat>, d: nat,
                    ram: set<nat>, m0: Memory, used0: seq<bool>, f: nat)
    requires Holding(m, used, owned, dirs, d, ram, m0, used0) && 0 < f < |used| && !used[f] && f in ram && f !in m
    requires Machine.OnlyFresh(m, used[f := true], m') && Machine.OnlyTaken(used[f := true], used')
    requires RowsKept(m, m', dirs, d, STACK_TABLE)
    ensures Holding(m', used', owned + [f], dirs, d, ram, m0, used0)
  {
    OwnedGrows(multiset(owned), m, ram, used, m', used', f);
    assert multiset(owned + [f]) == multiset(owned) + multiset{f};
    RowsKeptTwice(m0, m, m', dirs, d, STACK_TABLE);
  }

  lemma RowsUnchanged(m: Memory, dirs: set<nat>, kernel: nat, d: nat, i: nat)
    requires Shaped(m, dirs, kernel) && d in dirs && i < 1024
    ensures RowsKept(m, m, dirs, d, i)
  {
    assert forall d' :: d' in dirs ==> DirOk(m, dirs, d');
  }

  /** The only free frame has gone to the first page of the stack, which has no table of its own. */
  ghost predicate Lost(owned: seq<nat>, dirs: set<nat>, d: nat, m0: Memory, free: nat) {
    free == |owned| == 1 && !Settled(m0, dirs, d, STACK_TABLE)
  }

  /** The memory, the frames in use and the number of free frames to begin with. */
  datatype Setup = Setup(mem: Memory, used: seq<bool>, free: nat)

  /** So far each page of the stack has a table of the task's own, or the only free frame is lost. */
  ghost predicate Stacked(mem: Memory, used: seq<bool>, owned: seq<nat>, dirs: set<nat>, d: nat, ram: set<nat>,
                          g: Setup) {
    match g
    case Setup(m0, used0, free) =>
      && |owned| <= STACK_PAGES && Holding(mem, used, owned, dirs, d, ram, m0, used0)
      && if Lost(owned, dirs, d, m0, free) then
           FreeFrames(used) == {} && Misplaced(m0, mem, dirs, d, LOW_PAGE, owned[0])
         else Laying(mem, used, dirs, d, m0, owned, free)
  }

  /** What the mapping of a page to frame `f` does; `lost` says that it had no table of its own and no frame for one. */
  ghost predicate LaysPage(m: Memory, used: seq<bool>, m': Memory, used': seq<bool>, dirs: set<nat>, d: nat, v: nat,
                           f: nat, lost: bool)
    requires v < PAGES
  {
    && Machine.OnlyFresh(m, used, m') && Machine.OnlyTaken(used, used') && RowsKept(m, m', dirs, d, STACK_TABLE)
    && |FreeFrames(used')| == Fewer(|FreeFrames(used)|)
    && if lost then Misplaced(m, m', dirs, d, v, f)
       else
         && Isolated(m, m', dirs, d, v) && Translation(m', d, v) == Entry(f, USER_FLAGS)
         && Settled(m', dirs, d, STACK_TABLE)
  }

  function Fewer(n: nat): nat {
    if n == 0 then 0 else n - 1
  }

  lemma StackedAtFirst(dirs: set<nat>, kernel: nat, d: nat, ram: set<nat>, g: Setup)
    requires Shaped(g.mem, dirs, kernel) && d in dirs && |g.used| == Pmm.MAX_BLOCKS && g.free == |FreeFrames(g.used)|
    ensures Stacked(g.mem, g.used, [], dirs, d, ram, g)
  {
    RowsUnchanged(g.mem, dirs, kernel, d, STACK_TABLE);
  }

  /** How many frames are left. */
  lemma StackedFree(mem: Memory, used: seq<bool>, owned: seq<nat>, dirs: set<nat>, d: nat, ram: set<nat>, g: Setup)
    requires Stacked(mem, used, owned, dirs, d, ram, g)
    ensures |owned| <= STACK_PAGES && |FreeFrames(used)| == Left(g.free, |owned|)
    ensures Lost(owned, dirs, d, g.mem, g.free) ==> FreeFrames(used) == {}
  {
  }

  /** A stack in full is a place to push arguments on. */
  lemma StackedInFull(mem: Memory, used: seq<bool>, owned: seq<nat>, dirs: set<nat>, d: nat, ram: set<nat>, g: Setup)
    requires Stacked(mem, used, owned, dirs, d, ram, g) && |owned| == STACK_PAGES
    ensures Injective(StackPages(mem, d), RAM_SIZE) && AllMapped(StackPages(mem, d), STACK_LOW, STACK_TOP)
  {
    LaidIsValid(mem, d, owned, used);
  }

  lemma StackedMore(m: Memory, used: seq<bool>, owned: seq<nat>, used1: seq<bool>, m': Memory, used': seq<bool>,
                    owned': seq<nat>, dirs: set<nat>, d: nat, ram: set<nat>, g: Setup, v: nat, f: nat, lost: bool)
    requires Stacked(m, used, owned, dirs, d, ram, g) && |owned| < STACK_PAGES && d in dirs && v == LOW_PAGE + |owned|
    requires 0 < f < |used| && !used[f] && f in ram && f !in m && owned' == owned + [f] && used1 == used[f := true]
    requires |FreeFrames(used1)| == |FreeFrames(used)| - 1
    requires lost <==> FreeFrames(used1) == {} && !Settled(m, dirs, d, STACK_TABLE)
    requires LaysPage(m, used1, m', used', dirs, d, v, f, lost)
    ensures Stacked(m', used', owned', dirs, d, ram, g) && (lost <==> Lost(owned', dirs, d, g.mem, g.free))
  {
    HoldingMore(m, used, owned, m', used', dirs, d, ram, g.mem, g.used, f);
    if !lost {
      LayingOn(m, used, m', used', dirs, d, g.mem, owned, g.free, f);
    }
  }

  ghost predicate LaidSoFar(t: Task, g: Setup)
    reads t, t.machine, t.machine.pmm, t.machine.pmm.words
  {
    && t.machine.Shape() && t.dir in t.machine.dirs && t.dir != t.machine.kernel
    && Stacked(t.machine.mem, t.machine.pmm.used, t.owned, t.machine.dirs, t.dir, t.machine.ram, g)
    && (t.machine.Ident() || Lost(t.owned, t.machine.dirs, t.dir, g.mem, g.free))
  }

  /** Maps a page of the stack to frame `f`, which has just been taken. */
  method LayPage(machine: Machine, dir: nat, f: nat, v: nat, ghost lost: bool)
    requires machine.Shape() && machine.Ident() && dir in machine.dirs && dir != machine.kernel
    requires v < PAGES && v / 1024 == STACK_TABLE
    requires lost <==> machine.Free() == {} && !Settled(machine.mem, machine.dirs, dir, STACK_TABLE)
    modifies machine`mem, machine.pmm, machine.pmm.words
    ensures machine.Shape() && (lost || machine.Ident())
    ensures LaysPage(old(machine.mem), old(machine.pmm.used), machine.mem, machine.pmm.used, machine.dirs, dir, v, f,
                     lost)
  {
    assert DirOk(machine.mem, machine.dirs, dir);
    RowsUnchanged(machine.mem, machine.dirs, machine.kernel, dir, STACK_TABLE);
    if Present(machine.mem[dir][STACK_TABLE]) {
      WriteSharedRows(machine.mem, machine.dirs, machine.kernel, dir, STACK_TABLE,
                      machine.mem[dir][STACK_TABLE].frame, v % 1024, Entry(f, USER_FLAGS));
    }
    machine.MapUserPage(dir, f, v, USER_FLAGS);
    if !lost {
      IdentityKept(old(machine.mem), machine.mem, machine.dirs, machine.kernel, machine.ram, dir, v);
      assert Settled(machine.mem, machine.dirs, dir, STACK_TABLE);
    }
  }

  /** One more page of the stack; 0 when there is no frame for it. The list of owned frames has room for it. */
  method MapStackPage(t: Task, ghost g: Setup) returns (f: nat)
    requires LaidSoFar(t, g) && |t.owned| < STACK_PAGES
    modifies t`owned, t.machine`mem, t.machine.pmm, t.machine.pmm.words
    ensures f == 0 <==> Left(g.free, |old(t.owned)|) == 0
    ensures LaidSoFar(t, g) && t.owned == if f == 0 then old(t.owned) else old(t.owned) + [f]
  {
    var machine, v := t.machine, LOW_PAGE + |t.owned|;
    ghost var m, used, was := machine.mem, machine.pmm.used, t.owned;
    StackedFree(m, used, was, machine.dirs, t.dir, machine.ram, g);
    f := machine.TakeFrame();
    if f != 0 {
      OneTable(|t.owned|);
      ghost var used1 := machine.pmm.used;
      ghost var lost := machine.Free() == {} && !Settled(m, machine.dirs, t.dir, STACK_TABLE);
      var ok := t.Track(f);
      LayPage(machine, t.dir, f, v, lost);
      StackedMore(m, used, was, used1, machine.mem, machine.pmm.used, t.owned, machine.dirs, t.dir, machine.ram, g, v,
                  f, lost);
    }
  }

  /**
   Maps the stack of a new task. With seven free frames the task gets four pages of its own, which arguments can be
   pushed on. With fewer it fails. No other translation changes, of this task or any other, unless a single frame is
   free and the task has no table of its own there: then that frame goes into the table that others share. All that is
   taken is one frame for each page and, while there are enough, one for the table.
   */
  method MapStack(t: Task) returns (ok: bool)
    requires t.machine.Shape() && t.machine.Ident() && t.dir in t.machine.dirs && t.dir != t.machine.kernel
    requires t.owned == []
    modifies t`owned, t.machine`mem, t.machine.pmm, t.machine.pmm.words
    ensures LaidSoFar(t, old(Setup(t.machine.mem, t.machine.pmm.used, |t.machine.Free()|)))
    ensures ok <==> |old(t.machine.Free())| >= 7
    ensures if ok then |t.owned| == STACK_PAGES else |t.owned| == Reach(|old(t.machine.Free())|)
    ensures ok ==>
      && Injective(StackPages(t.machine.mem, t.dir), RAM_SIZE)
      && AllMapped(StackPages(t.machine.mem, t.dir), STACK_LOW, STACK_TOP)
  {
    ghost var g := Setup(t.machine.mem, t.machine.pmm.used, |t.machine.Free()|);
    StackedAtFirst(t.machine.dirs, t.machine.kernel, t.dir, t.machine.ram, g);
    var k := 0;
    while k < STACK_PAGES
      invariant 0 <= k <= STACK_PAGES && |t.owned| == k && LaidSoFar(t, g)
      invariant k > 0 ==> 2 * k <= g.free + 1
    {
      var f := MapStackPage(t, g);
      if f == 0 {
        return false;
      }
      k := k + 1;
    }
    StackedInFull(t.machine.mem, t.machine.pmm.used, t.owned, t.machine.dirs, t.dir, t.machine.ram, g);
    return true;
  }
}
