/** User tasks as they come and go (task.c): a directory, a stack, and the frames that are given back at the end. */
module UserTask {
  import opened PageTables
  import opened Paging
  import opened HeapBreak
  import opened UserMemory
  import opened ArgStack
  import opened UserStack
  import opened Sectors
  import opened PagingBoot
  import opened Common
  import Pmm

  // ---- giving everything back ----

  /** Exactly the frames of `given` have become free. */
  ghost predicate Given(used: seq<bool>, used': seq<bool>, given: set<nat>) {
    |used'| == |used| && forall g {:trigger used'[g]} :: 0 <= g < |used| ==> (used'[g] <==> used[g] && g !in given)
  }

  lemma GivenMore(used: seq<bool>, used': seq<bool>, given: set<nat>, f: nat)
    requires Given(used, used', given) && f < |used|
    ensures Given(used, used'[f := false], given + {f})
  {
  }

  /** What frames were given back, when all of them were in use. */
  lemma GivenFree(used: seq<bool>, used': seq<bool>, given: set<nat>)
    requires Given(used, used', given) && forall f :: f in given ==> f < |used| && used[f]
    ensures FreeFrames(used') == FreeFrames(used) + given && |FreeFrames(used')| == |FreeFrames(used)| + |given|
  {
    assert FreeFrames(used') == FreeFrames(used) + given && FreeFrames(used) !! given;
  }

  /** Directories other than `d` are as before without `d` and the first `n` of its own tables. */
  lemma WithoutTables(mem: Memory, dirs: set<nat>, kernel: nat, ram: set<nat>, d: nat, n: nat, mem': Memory)
    requires Shaped(mem, dirs, kernel) && d in dirs && d != kernel && Homes(mem, dirs, kernel, ram) && n <= 1024
    requires mem' == mem - OwnTables(mem, kernel, d, n) || mem' == mem - OwnTables(mem, kernel, d, n) - {d}
    ensures Shaped(mem', dirs - {d}, kernel) && Homes(mem', dirs - {d}, kernel, ram)
    ensures forall d', v :: d' in dirs && d' != d && 0 <= v < PAGES ==>
      d' in mem' && Translation(mem', d', v) == Translation(mem, d', v)
  {
    forall d' | d' in dirs && d' != d
      ensures DirOk(mem', dirs - {d}, d') && mem'[d'] == mem[d']
      ensures forall i :: 0 <= i < 1024 && Present(mem[d'][i]) ==> mem[d'][i].frame in mem'
    {
      assert DirOk(mem, dirs, d') && DirOk(mem, dirs, d);
      NotOwn(mem, dirs, kernel, ram, d, n, d');
    }
    forall d', i | d' in dirs - {d} && 0 <= i < 1024
      ensures OwnOk(mem', dirs - {d}, kernel, ram, d', i)
    {
      assert OwnOk(mem, dirs, kernel, ram, d', i);
    }
  }

  /** No other directory is, or points to, a table of the directory's own. */
  lemma NotOwn(mem: Memory, dirs: set<nat>, kernel: nat, ram: set<nat>, d: nat, n: nat, d': nat)
    requires Shaped(mem, dirs, kernel) && d in dirs && Homes(mem, dirs, kernel, ram) && n <= 1024
    requires d' in dirs && d' != d
    ensures d' !in OwnTables(mem, kernel, d, n) && d' in mem
    ensures forall i :: 0 <= i < 1024 && Present(mem[d'][i]) ==> mem[d'][i].frame !in OwnTables(mem, kernel, d, n)
  {
    assert DirOk(mem, dirs, d') && DirOk(mem, dirs, d);
    if d' in OwnTables(mem, kernel, d, n) {
      var i := FindOwnTable(mem, kernel, d, n, d');
    }
    forall i | 0 <= i < 1024 && Present(mem[d'][i])
      ensures mem[d'][i].frame !in OwnTables(mem, kernel, d, n)
    {
      forall k | 0 <= k < 1024 && Own(mem, kernel, d, k)
        ensures mem[d][k].frame != mem[d'][i].frame
      {
        assert OwnOk(mem, dirs, kernel, ram, d, k);
      }
      if mem[d'][i].frame in OwnTables(mem, kernel, d, n) {
        var k := FindOwnTable(mem, kernel, d, n, mem[d'][i].frame);
      }
    }
  }

  /** Different entries have different tables of their own, none of which is the directory. */
  lemma NextOwn(mem: Memory, dirs: set<nat>, kernel: nat, ram: set<nat>, d: nat, n: nat)
    requires Shaped(mem, dirs, kernel) && d in dirs && Homes(mem, dirs, kernel, ram) && n < 1024
    requires Own(mem, kernel, d, n)
    ensures var f := mem[d][n].frame;
      f in mem && f !in OwnTables(mem, kernel, d, n) && f != d && 0 < f && f in ram
    ensures d !in OwnTables(mem, kernel, d, n)
  {
    var f := mem[d][n].frame;
    assert DirOk(mem, dirs, d) && OwnOk(mem, dirs, kernel, ram, d, n);
    if f in OwnTables(mem, kernel, d, n) {
      var k := FindOwnTable(mem, kernel, d, n, f);
    }
    if d in OwnTables(mem, kernel, d, n) {
      var k := FindOwnTable(mem, kernel, d, n, d);
    }
  }

  /** What a task starts to be torn down with. */
  datatype Standing = Standing(mem: Memory, used: seq<bool>, dirs: set<nat>)

  /** The first `n` entries of directory `d` are cleared away. */
  ghost predicate Clearing(machine: Machine, d: nat, n: nat, s: Standing)
    requires n <= 1024 && d in s.mem && machine.kernel in s.mem
    reads machine, machine.pmm, machine.pmm.words
  {
    && machine.Shape() && machine.dirs == s.dirs - {d}
    && machine.mem == s.mem - OwnTables(s.mem, machine.kernel, d, n)
    && Given(s.used, machine.pmm.used, OwnTables(s.mem, machine.kernel, d, n))
  }

  ghost predicate Standable(machine: Machine, d: nat, s: Standing)
    reads machine
  {
    && Shaped(s.mem, s.dirs, machine.kernel) && d in s.dirs && d != machine.kernel
    && Homes(s.mem, s.dirs, machine.kernel, machine.ram) && Machine.Tracked(s.mem, machine.ram, s.used)
  }

  /** Gives the table of entry `i` back unless it is the kernel's. */
  method GiveTable(machine: Machine, d: nat, i: nat, ghost s: Standing) returns (i': nat)
    requires Standable(machine, d, s) && i < 1024 && Clearing(machine, d, i, s)
    modifies machine`mem, machine.pmm, machine.pmm.words
    ensures i' == i + 1 && Clearing(machine, d, i', s)
  {
    i' := i + 1;
    ghost var kernel := machine.kernel;
    assert DirOk(s.mem, s.dirs, d) && DirOk(s.mem, s.dirs, kernel);
    NotOwn(s.mem, s.dirs, kernel, machine.ram, d, i, kernel);
    if Own(s.mem, kernel, d, i) {
      NextOwn(s.mem, s.dirs, kernel, machine.ram, d, i);
    }
    OwnNotSelf(s.mem, s.dirs, kernel, d, i);
    var e, k := machine.mem[d][i], machine.mem[machine.kernel][i];
    if Present(e) && !(Present(k) && k.frame == e.frame) {
      GivenMore(s.used, machine.pmm.used, OwnTables(s.mem, kernel, d, i), e.frame);
      machine.mem := machine.mem - {e.frame};
      assert machine.mem == s.mem - OwnTables(s.mem, kernel, d, i');
      WithoutTables(s.mem, s.dirs, kernel, machine.ram, d, i', machine.mem);
      machine.GiveFrame(e.frame);
    }
  }

  lemma OwnNotSelf(mem: Memory, dirs: set<nat>, kernel: nat, d: nat, n: nat)
    requires Shaped(mem, dirs, kernel) && d in dirs && d in mem && kernel in mem && n <= 1024
    ensures d !in OwnTables(mem, kernel, d, n)
  {
    assert DirOk(mem, dirs, d);
    if d in OwnTables(mem, kernel, d, n) {
      var k := FindOwnTable(mem, kernel, d, n, d);
    }
  }

  /** What a directory of its own takes: its tables and itself. */
  ghost function Space(mem: Memory, kernel: nat, d: nat): set<nat>
    requires d in mem && kernel in mem
  {
    OwnTables(mem, kernel, d, 1024) + {d}
  }

  lemma SpaceIsTables(mem: Memory, dirs: set<nat>, kernel: nat, d: nat)
    requires Shaped(mem, dirs, kernel) && d in dirs && d in mem && kernel in mem
    ensures Space(mem, kernel, d) <= mem.Keys
  {
    assert DirOk(mem, dirs, d);
    forall f | f in OwnTables(mem, kernel, d, 1024)
      ensures f in mem
    {
      var i := FindOwnTable(mem, kernel, d, 1024, f);
    }
  }

  /** Gives back a directory and the tables that only it has. No other directory translates anything differently. */
  method GiveSpace(machine: Machine, d: nat)
    requires machine.Shape() && d in machine.dirs && d != machine.kernel
    modifies machine`mem, machine`dirs, machine.pmm, machine.pmm.words
    ensures machine.Shape() && machine.dirs == old(machine.dirs) - {d}
    ensures d in old(machine.mem) && machine.kernel in old(machine.mem)
    ensures machine.mem == old(machine.mem) - Space(old(machine.mem), machine.kernel, d)
    ensures Given(old(machine.pmm.used), machine.pmm.used, Space(old(machine.mem), machine.kernel, d))
    ensures forall d', v :: d' in machine.dirs && 0 <= v < PAGES ==>
      Translation(machine.mem, d', v) == Translation(old(machine.mem), d', v)
  {
    ghost var s, kernel := Standing(machine.mem, machine.pmm.used, machine.dirs), machine.kernel;
    machine.dirs := machine.dirs - {d};
    assert s.mem == s.mem - OwnTables(s.mem, kernel, d, 0);
    WithoutTables(s.mem, s.dirs, kernel, machine.ram, d, 0, s.mem);
    var i := 0;
    while i < 1024
      invariant 0 <= i <= 1024 && machine.kernel == kernel && Clearing(machine, d, i, s)
    {
      i := GiveTable(machine, d, i, s);
    }
    OwnNotSelf(s.mem, s.dirs, kernel, d, 1024);
    GivenMore(s.used, machine.pmm.used, OwnTables(s.mem, kernel, d, 1024), d);
    machine.mem := machine.mem - {d};
    assert machine.mem == s.mem - Space(s.mem, kernel, d);
    WithoutTables(s.mem, s.dirs, kernel, machine.ram, d, 1024, machine.mem);
    machine.GiveFrame(d);
  }

  /** Gives back the frames that the task owns. */
  method GiveOwned(t: Task)
    requires t.machine.Shape() && OwnedOk(multiset(t.owned), t.machine.mem, t.machine.ram, t.machine.pmm.used)
    modifies t`owned, t.machine.pmm, t.machine.pmm.words
    ensures t.machine.Shape() && t.owned == []
    ensures Given(old(t.machine.pmm.used), t.machine.pmm.used, Members(old(t.owned)))
  {
    ghost var used := t.machine.pmm.used;
    for j := 0 to |t.owned|
      invariant t.machine.Shape() && t.owned == old(t.owned)
      invariant Given(used, t.machine.pmm.used, Members(t.owned[..j]))
    {
      var f := t.owned[j];
      assert FrameOk(multiset(t.owned), t.machine.mem, t.machine.ram, used, f);
      GivenMore(used, t.machine.pmm.used, Members(t.owned[..j]), f);
      assert Members(t.owned[..j + 1]) == Members(t.owned[..j]) + {f};
      t.machine.GiveFrame(f);
    }
    assert t.owned[..|t.owned|] == t.owned;
    t.owned := [];
  }

  /** Owned frames hold no tables, so they are not among those that are given back. */
  lemma OwnedKeeps(owned: multiset<nat>, mem: Memory, ram: set<nat>, used: seq<bool>, mem': Memory, used': seq<bool>,
                   given: set<nat>)
    requires OwnedOk(owned, mem, ram, used) && Given(used, used', given) && given <= mem.Keys && mem'.Keys <= mem.Keys
    ensures OwnedOk(owned, mem', ram, used') && forall f :: f in owned ==> f !in given
  {
    forall f | f in owned
      ensures FrameOk(owned, mem', ram, used', f) && f !in given
    {
      assert FrameOk(owned, mem, ram, used, f);
    }
  }

  lemma AllGiven(mem: Memory, used: seq<bool>, used1: seq<bool>, used2: seq<bool>, ram: set<nat>, space: set<nat>,
                 owned: seq<nat>)
    requires OwnedOk(multiset(owned), mem, ram, used) && space <= mem.Keys && Machine.Tracked(mem, ram, used)
    requires Given(used, used1, space) && Given(used1, used2, Members(owned))
    ensures Given(used, used2, space + Members(owned))
    ensures FreeFrames(used2) == FreeFrames(used) + (space + Members(owned))
    ensures |FreeFrames(used2)| == |FreeFrames(used)| + |space| + |owned|
  {
    forall f | f in Members(owned)
      ensures f < |used| && used[f] && f !in mem
    {
      assert FrameOk(multiset(owned), mem, ram, used, f);
    }
    forall i, j | 0 <= i < j < |owned|
      ensures owned[i] != owned[j]
    {
      if owned[i] == owned[j] {
        assert FrameOk(multiset(owned), mem, ram, used, owned[i]);
        TwiceIn(owned, i, j);
      }
    }
    DistinctCount(owned);
    GivenFree(used, used2, space + Members(owned));
    assert space !! Members(owned);
  }

  lemma TwiceIn(s: seq<nat>, i: nat, j: nat)
    requires i < j < |s| && s[i] == s[j]
    ensures multiset(s)[s[i]] >= 2
  {
    assert s == s[..j] + s[j..];
    assert s[i] in s[..j] && s[j] in s[j..] by { assert s[j..][0] == s[j]; }
  }

  /** All that a task has: its directory, the tables that only it has, and the frames it owns. */
  ghost function Belongings(mem: Memory, kernel: nat, d: nat, owned: seq<nat>): set<nat>
    requires d in mem && kernel in mem
  {
    Space(mem, kernel, d) + Members(owned)
  }

  /**
   Tears a task down: exactly what it has is given back, each frame once, and no other task and not the kernel
   translates anything differently.
   */
  method Release(t: Task)
    requires t.machine.Shape() && t.dir in t.machine.dirs && t.dir != t.machine.kernel
    requires OwnedOk(multiset(t.owned), t.machine.mem, t.machine.ram, t.machine.pmm.used)
    modifies t`owned, t.machine`mem, t.machine`dirs, t.machine.pmm, t.machine.pmm.words
    ensures t.machine.Shape() && t.machine.dirs == old(t.machine.dirs) - {t.dir} && t.owned == []
    ensures t.dir in old(t.machine.mem) && t.machine.kernel in old(t.machine.mem)
    ensures t.machine.mem == old(t.machine.mem) - Space(old(t.machine.mem), t.machine.kernel, t.dir)
    ensures
      var all := Belongings(old(t.machine.mem), t.machine.kernel, t.dir, old(t.owned));
      && Given(old(t.machine.pmm.used), t.machine.pmm.used, all)
      && t.machine.Free() == old(t.machine.Free()) + all
      && |t.machine.Free()| ==
         |old(t.machine.Free())| + |Space(old(t.machine.mem), t.machine.kernel, t.dir)| + |old(t.owned)|
    ensures forall d', v :: d' in t.machine.dirs && 0 <= v < PAGES ==>
      Translation(t.machine.mem, d', v) == Translation(old(t.machine.mem), d', v)
  {
    ghost var m, used, owned := t.machine.mem, t.machine.pmm.used, t.owned;
    GiveSpace(t.machine, t.dir);
    ghost var used1, space := t.machine.pmm.used, Space(m, t.machine.kernel, t.dir);
    SpaceIsTables(m, old(t.machine.dirs), t.machine.kernel, t.dir);
    OwnedKeeps(multiset(owned), m, t.machine.ram, used, t.machine.mem, used1, space);
    GiveOwned(t);
    AllGiven(m, used, used1, t.machine.pmm.used, t.machine.ram, space, owned);
  }

  // ---- a new task ----

  /** The only table that a new task may have of its own is that of its stack, which is then new. */
  ghost predicate StackTableOnly(mem: Memory, kernel: nat, d: nat, own: bool)
    requires d in mem && kernel in mem
  {
    OwnTables(mem, kernel, d, 1024) == if own then {mem[d][STACK_TABLE].frame} else {}
  }

  lemma {:induction false} OneOwnTable(mem: Memory, kernel: nat, d: nat, n: nat, i: nat)
    requires n <= 1024 && i < 1024 && d in mem && kernel in mem
    requires forall k :: 0 <= k < n && k != i ==> !Own(mem, kernel, d, k)
    ensures OwnTables(mem, kernel, d, n) == if i < n && Own(mem, kernel, d, i) then {mem[d][i].frame} else {}
  {
    if n > 0 {
      OneOwnTable(mem, kernel, d, n - 1, i);
    }
  }

  /** Since the directory was cloned, only its entry for the stack has come to differ from the kernel's. */
  lemma NewOwnTable(m0: Memory, used0: seq<bool>, mem: Memory, dirs: set<nat>, kernel: nat, d: nat, ram: set<nat>)
    requires Shaped(m0, dirs, kernel) && Shaped(mem, dirs, kernel) && d in dirs && d != kernel && 0 < d && d in ram
    requires d in m0 && kernel in m0 && m0[d] == m0[kernel] && RowsKept(m0, mem, dirs, d, STACK_TABLE)
    requires Machine.OnlyFresh(m0, used0, mem) && Machine.Tracked(m0, ram, used0) && 0 < |used0| && used0[0]
    ensures StackTableOnly(mem, kernel, d, Settled(mem, dirs, d, STACK_TABLE))
    ensures Settled(mem, dirs, d, STACK_TABLE) ==> mem[d][STACK_TABLE].frame !in m0 && mem[d][STACK_TABLE].frame in mem
  {
    assert DirOk(m0, dirs, d) && DirOk(m0, dirs, kernel) && DirOk(mem, dirs, d) && RowKept(m0, mem, kernel);
    forall k | 0 <= k < 1024 && k != STACK_TABLE
      ensures !Own(mem, kernel, d, k)
    {
      assert EntryKept(m0, mem, d, k);
    }
    OneOwnTable(mem, kernel, d, 1024, STACK_TABLE);
    if Own(mem, kernel, d, STACK_TABLE) {
      assert mem[d][STACK_TABLE].frame !in m0;
      forall d', i' | d' in dirs && d' in mem && 0 <= i' < 1024 && Present(mem[d'][i']) &&
                      !(d' == d && i' == STACK_TABLE)
        ensures mem[d'][i'].frame in m0
      {
        assert DirOk(m0, dirs, d');
        if d' == d {
          assert EntryKept(m0, mem, d, i');
        } else {
          assert RowKept(m0, mem, d');
        }
      }
      assert Private(mem, dirs, d, STACK_TABLE);
    } else if Present(mem[d][STACK_TABLE]) {
      assert !Private(mem, dirs, d, STACK_TABLE);
    }
  }

  /**
   How many frames are free after a task could not be created, when `n` were free before. All are given back exactly if
   at most four were free; otherwise tables that were copied again are lost.
   */
  function Returned(n: nat): (r: nat)
    ensures r <= n && (r == n <==> n <= 4)
  {
    if n < 3 then n else Reach(n - 1) + 2
  }

  /** Frames in use stay in use and only free ones have come to hold tables. */
  ghost predicate OnlyNew(m: Memory, used: seq<bool>, m': Memory, used': seq<bool>) {
    Machine.OnlyFresh(m, used, m') && Machine.OnlyTaken(used, used')
  }

  /** The directories `dirs` translate as before. */
  ghost predicate Unmoved(m: Memory, m': Memory, dirs: set<nat>) {
    forall d, v {:trigger Same(m, m', d, v)} :: d in dirs && 0 <= v < PAGES ==> Same(m, m', d, v)
  }

  lemma OnlyNewTwice(m0: Memory, u0: seq<bool>, m1: Memory, u1: seq<bool>, m2: Memory, u2: seq<bool>)
    requires OnlyNew(m0, u0, m1, u1) && OnlyNew(m1, u1, m2, u2)
    ensures OnlyNew(m0, u0, m2, u2)
  {
  }

  /** What came after `m` and `used` is given back. */
  lemma OnlyNewBack(m: Memory, used: seq<bool>, m1: Memory, u1: seq<bool>, m2: Memory, u2: seq<bool>, space: set<nat>,
                    all: set<nat>)
    requires OnlyNew(m, used, m1, u1) && m2 == m1 - space && Given(u1, u2, all)
    requires forall f :: f in space ==> f !in m
    requires forall f :: f in all ==> f < |used| && !used[f]
    ensures OnlyNew(m, used, m2, u2)
  {
  }

  lemma UnmovedTwice(m0: Memory, m1: Memory, m2: Memory, dirs: set<nat>)
    requires Unmoved(m0, m1, dirs) && Unmoved(m1, m2, dirs)
    ensures Unmoved(m0, m2, dirs)
  {
    forall d, v | d in dirs && 0 <= v < PAGES
      ensures Same(m0, m2, d, v)
    {
      assert Same(m0, m1, d, v) && Same(m1, m2, d, v);
    }
  }

  lemma ConfinedUnmoved(m: Memory, m': Memory, dirs: set<nat>, d: nat, lo: nat, hi: nat, others: set<nat>)
    requires Confined(m, m', dirs, d, lo, hi) && others <= dirs - {d}
    ensures Unmoved(m, m', others)
  {
    forall d', v | d' in others && 0 <= v < PAGES
      ensures Same(m, m', d', v)
    {
      assert Same(m, m', d', v);
    }
  }

  lemma IdentityUnmoved(m: Memory, m': Memory, dirs: set<nat>, kernel: nat, ram: set<nat>)
    requires Unmoved(m, m', dirs) && kernel in dirs && Identity(m, kernel, ram)
    ensures Identity(m', kernel, ram)
  {
    forall f | f in ram
      ensures OwnPage(m', kernel, f)
    {
      assert OwnPage(m, kernel, f) && Same(m, m', kernel, f);
    }
  }

  /** The directory of a new task, before its stack is mapped. */
  ghost predicate Cloned(g: Setup, dirs: set<nat>, kernel: nat, d: nat, ram: set<nat>) {
    && Shaped(g.mem, dirs, kernel) && d in dirs && d != kernel && 0 < d && d in ram
    && d in g.mem && kernel in g.mem && g.mem[d] == g.mem[kernel]
    && Machine.Tracked(g.mem, ram, g.used) && 0 < |g.used| && g.used[0]
  }

  /** When the task has a table of its own for its stack. */
  lemma OwnStackTable(mem: Memory, used: seq<bool>, owned: seq<nat>, dirs: set<nat>, kernel: nat, d: nat, ram: set<nat>,
                      g: Setup)
    requires Cloned(g, dirs, kernel, d, ram) && Shaped(mem, dirs, kernel)
    requires Stacked(mem, used, owned, dirs, d, ram, g) && |owned| <= Reach(g.free)
    ensures Lost(owned, dirs, d, g.mem, g.free) <==> |owned| == g.free == 1
    ensures Settled(mem, dirs, d, STACK_TABLE) <==> owned != [] && g.free != 1
  {
    var m0 := g.mem;
    assert DirOk(m0, dirs, d) && DirOk(m0, dirs, kernel) && RowKept(m0, mem, kernel);
    assert !Settled(m0, dirs, d, STACK_TABLE);
    if mem[d][STACK_TABLE] == m0[d][STACK_TABLE] {
      assert !Settled(mem, dirs, d, STACK_TABLE);
    }
  }

  /** What is given back when the stack could not be mapped: all of it was free before the directory was cloned. */
  lemma Aborted(mem: Memory, used: seq<bool>, owned: seq<nat>, dirs: set<nat>, kernel: nat, d: nat, ram: set<nat>,
                g: Setup, m: Memory, u: seq<bool>)
    requires Cloned(g, dirs, kernel, d, ram) && Shaped(mem, dirs, kernel)
    requires Stacked(mem, used, owned, dirs, d, ram, g) && |owned| <= Reach(g.free)
    requires OnlyNew(m, u, g.mem, g.used) && d !in m && d < |u| && !u[d] && Machine.Tracked(m, ram, u)
    ensures d in mem && kernel in mem && OnlyNew(m, u, mem, used)
    ensures |Space(mem, kernel, d)| == if owned != [] && g.free != 1 then 2 else 1
    ensures forall f :: f in Space(mem, kernel, d) ==> f !in m
    ensures forall f :: f in Belongings(mem, kernel, d, owned) ==> f < |u| && !u[f]
  {
    NewOwnTable(g.mem, g.used, mem, dirs, kernel, d, ram);
    OwnStackTable(mem, used, owned, dirs, kernel, d, ram, g);
    OnlyNewTwice(m, u, g.mem, g.used, mem, used);
    assert DirOk(mem, dirs, d);
    NewSpace(mem, kernel, d, Settled(mem, dirs, d, STACK_TABLE), g.mem, g.used, m, u, dirs);
  }

  lemma NewSpace(mem: Memory, kernel: nat, d: nat, own: bool, m0: Memory, u0: seq<bool>, m: Memory, u: seq<bool>,
                 dirs: set<nat>)
    requires d in mem && kernel in mem && StackTableOnly(mem, kernel, d, own) && d in dirs && DirOk(mem, dirs, d)
    requires own ==> Present(mem[d][STACK_TABLE]) && mem[d][STACK_TABLE].frame !in m0
    requires OnlyNew(m, u, m0, u0) && Machine.OnlyFresh(m0, u0, mem) && d !in m && d < |u| && !u[d]
    ensures |Space(mem, kernel, d)| == if own then 2 else 1
    ensures forall f :: f in Space(mem, kernel, d) ==> f !in m && f < |u| && !u[f]
  {
    if own {
      var f := mem[d][STACK_TABLE].frame;
      assert f != d && Space(mem, kernel, d) == {f, d};
    } else {
      assert Space(mem, kernel, d) == {d};
    }
  }

  /** Tears down a task whose stack could not be mapped. */
  method Abort(t: Task, ghost g: Setup, ghost m: Memory, ghost u: seq<bool>)
    requires LaidSoFar(t, g) && |t.owned| == Reach(g.free)
    requires Cloned(g, t.machine.dirs, t.machine.kernel, t.dir, t.machine.ram)
    requires OnlyNew(m, u, g.mem, g.used) && t.dir !in m && t.dir < |u| && !u[t.dir]
    requires Machine.Tracked(m, t.machine.ram, u)
    modifies t`owned, t.machine`mem, t.machine`dirs, t.machine.pmm, t.machine.pmm.words
    ensures t.machine.Shape() && t.machine.dirs == old(t.machine.dirs) - {t.dir}
    ensures OnlyNew(m, u, t.machine.mem, t.machine.pmm.used)
    ensures |t.machine.Free()| == Reach(g.free) + if g.free >= 2 then 2 else 1
    ensures g.free != 1 ==> Unmoved(g.mem, t.machine.mem, t.machine.dirs)
  {
    ghost var mem, used, owned, dirs, kernel := t.machine.mem, t.machine.pmm.used, t.owned, t.machine.dirs,
      t.machine.kernel;
    StackedFree(mem, used, owned, dirs, t.dir, t.machine.ram, g);
    Aborted(mem, used, owned, dirs, kernel, t.dir, t.machine.ram, g, m, u);
    OwnStackTable(mem, used, owned, dirs, kernel, t.dir, t.machine.ram, g);
    Release(t);
    OnlyNewBack(m, u, mem, used, t.machine.mem, t.machine.pmm.used, Space(mem, kernel, t.dir),
                Belongings(mem, kernel, t.dir, owned));
    if g.free != 1 {
      ConfinedUnmoved(g.mem, mem, dirs, t.dir, LOW_PAGE, LOW_PAGE + |owned|, t.machine.dirs);
      ReleasedUnmoved(mem, t.machine.mem, t.machine.dirs);
      UnmovedTwice(g.mem, mem, t.machine.mem, t.machine.dirs);
    }
  }

  lemma ReleasedUnmoved(m: Memory, m': Memory, dirs: set<nat>)
    requires forall d, v :: d in dirs && 0 <= v < PAGES ==> Translation(m', d, v) == Translation(m, d, v)
    ensures Unmoved(m, m', dirs)
  {
  }

  /** A directory for a new task, 0 if there is no frame for it, and what its stack then starts with. */
  method NewDirectory(machine: Machine) returns (d: nat, ghost g: Setup)
    requires machine.Shape() && machine.Ident()
    modifies machine, machine.pmm, machine.pmm.words
    ensures machine.Shape() && machine.Ident() && g == Setup(machine.mem, machine.pmm.used, |machine.Free()|)
    ensures OnlyNew(old(machine.mem), old(machine.pmm.used), g.mem, g.used)
    ensures Unmoved(old(machine.mem), g.mem, old(machine.dirs))
    ensures d == 0 <==> |old(machine.Free())| == 0
    ensures d == 0 ==> machine.dirs == old(machine.dirs) && g.free == 0
    ensures d != 0 ==>
      && d !in old(machine.dirs) && machine.dirs == old(machine.dirs) + {d} && g.free == |old(machine.Free())| - 1
      && Cloned(g, machine.dirs, machine.kernel, d, machine.ram)
      && d !in old(machine.mem) && d < |old(machine.pmm.used)| && !old(machine.pmm.used)[d]
      && RowKept(old(machine.mem), g.mem, machine.kernel)
  {
    d := machine.CloneKernel();
    g := Setup(machine.mem, machine.pmm.used, |machine.Free()|);
    ReleasedUnmoved(old(machine.mem), g.mem, old(machine.dirs));
  }

  /** A task with one table of its own and a stack of four pages, all in frames that were free when `u` was in use. */
  ghost predicate Running(t: Task, u: seq<bool>)
    reads t, t.machine, t.machine.pmm, t.machine.pmm.words
  {
    && t.Valid() && t.brk == HEAP_BASE && |t.owned| == STACK_PAGES
    && (forall k :: 0 <= k < STACK_PAGES ==> t.owned[k] in FreeFrames(u))
    && Injective(StackPages(t.machine.mem, t.dir), RAM_SIZE)
    && AllMapped(StackPages(t.machine.mem, t.dir), STACK_LOW, STACK_TOP)
    && t.dir in t.machine.mem && t.machine.kernel in t.machine.mem
    && |Space(t.machine.mem, t.machine.kernel, t.dir)| == 2
  }

  /** User mode reaches the pages of the stack exactly if the kernel's directory lets it, whose entry was copied. */
  ghost predicate StackRights(mem: Memory, kernel: nat, d: nat) {
    kernel in mem && Present(mem[kernel][STACK_TABLE]) ==>
      forall p :: LOW_PAGE <= p < LOW_PAGE + STACK_PAGES ==>
        (UserCan(mem, d, p) <==> ForUsers(mem[kernel][STACK_TABLE]))
  }

  lemma StackForUsers(mem: Memory, used: seq<bool>, owned: seq<nat>, dirs: set<nat>, kernel: nat, d: nat, ram: set<nat>,
                      g: Setup)
    requires Cloned(g, dirs, kernel, d, ram) && Shaped(mem, dirs, kernel) && |owned| == STACK_PAGES
    requires Stacked(mem, used, owned, dirs, d, ram, g)
    ensures StackRights(mem, kernel, d)
  {
    assert RowKept(g.mem, mem, kernel);
    if Present(mem[kernel][STACK_TABLE]) {
      forall p | LOW_PAGE <= p < LOW_PAGE + STACK_PAGES
        ensures UserCan(mem, d, p) <==> ForUsers(mem[kernel][STACK_TABLE])
      {
        assert LaidAt(mem, d, owned, used, p - LOW_PAGE) && LOW_PAGE + (p - LOW_PAGE) == p;
      }
    }
  }

  /** Makes a task of the directory `d`, or tears it down. */
  method FillDirectory(machine: Machine, d: nat, ghost g: Setup, ghost m: Memory, ghost u: seq<bool>,
                       ghost dirs: set<nat>)
    returns (t: Task?)
    requires machine.Shape() && machine.Ident() && g == Setup(machine.mem, machine.pmm.used, |machine.Free()|)
    requires Cloned(g, machine.dirs, machine.kernel, d, machine.ram) && OnlyNew(m, u, g.mem, g.used)
    requires d !in m && d < |u| && !u[d] && Machine.Tracked(m, machine.ram, u) && dirs == machine.dirs - {d}
    modifies machine`mem, machine`dirs, machine.pmm, machine.pmm.words
    ensures machine.Shape() && OnlyNew(m, u, machine.mem, machine.pmm.used) && (t != null <==> g.free >= 7)
    ensures g.free != 1 ==> Unmoved(g.mem, machine.mem, dirs)
    ensures t == null ==> machine.dirs == dirs && |machine.Free()| == Reach(g.free) + if g.free >= 2 then 2 else 1
    ensures t != null ==>
      && fresh(t) && t.machine == machine && t.dir == d && machine.dirs == old(machine.dirs)
      && Running(t, u) && |machine.Free()| == Left(g.free, STACK_PAGES)
      && StackRights(machine.mem, machine.kernel, d) && RowKept(g.mem, machine.mem, machine.kernel)
  {
    var task := new Task(machine, d);
    var ok := MapStack(task);
    if ok {
      Started(task, g, m, u, dirs);
      t := task;
    } else {
      Abort(task, g, m, u);
      t := null;
    }
  }

  /**
   Creates a user task. With eight free frames it gets a directory and a stack of four pages of its own. With fewer, all
   that it was given is given back, but for tables that were copied again. The kernel and all other tasks translate as
   before, unless two frames are free: then the second one goes into a table that all of them share.
   */
  method CreateTask(machine: Machine) returns (t: Task?)
    requires machine.Shape() && machine.Ident()
    modifies machine, machine.pmm, machine.pmm.words
    ensures machine.Shape() && OnlyNew(old(machine.mem), old(machine.pmm.used), machine.mem, machine.pmm.used)
    ensures t != null <==> |old(machine.Free())| >= 8
    ensures |old(machine.Free())| != 2 ==>
      machine.Ident() && Unmoved(old(machine.mem), machine.mem, old(machine.dirs))
    ensures t == null ==> machine.dirs == old(machine.dirs) && |machine.Free()| == Returned(|old(machine.Free())|)
    ensures t != null ==>
      && fresh(t) && t.machine == machine && t.dir !in old(machine.dirs) && machine.dirs == old(machine.dirs) + {t.dir}
      && Running(t, old(machine.pmm.used)) && |machine.Free()| == Remaining(|old(machine.Free())|)
      && StackRights(machine.mem, machine.kernel, t.dir) && RowKept(old(machine.mem), machine.mem, machine.kernel)
  {
    t := null;
    ghost var m, u, dirs := machine.mem, machine.pmm.used, machine.dirs;
    ghost var g;
    var d;
    d, g := NewDirectory(machine);
    if d != 0 {
      t := FillDirectory(machine, d, g, m, u, dirs);
      if g.free != 1 {
        UnmovedTwice(m, g.mem, machine.mem, dirs);
        IdentityUnmoved(m, machine.mem, dirs, machine.kernel, machine.ram);
      }
    }
  }

  /** How many of `n` free frames are left when a task has been created. */
  function Remaining(n: nat): nat {
    if n < 9 then 0 else n - 9
  }

  lemma Started(t: Task, g: Setup, m: Memory, u: seq<bool>, dirs: set<nat>)
    requires LaidSoFar(t, g) && |t.owned| == STACK_PAGES && OnlyNew(m, u, g.mem, g.used) && t.brk == HEAP_BASE
    requires dirs <= t.machine.dirs - {t.dir} && g.free >= 7
    requires Cloned(g, t.machine.dirs, t.machine.kernel, t.dir, t.machine.ram)
    requires t.dir !in m && t.dir < |u| && !u[t.dir] && Machine.Tracked(m, t.machine.ram, u)
    ensures Running(t, u) && OnlyNew(m, u, t.machine.mem, t.machine.pmm.used) && Unmoved(g.mem, t.machine.mem, dirs)
    ensures |t.machine.Free()| == Left(g.free, STACK_PAGES) && StackRights(t.machine.mem, t.machine.kernel, t.dir)
    ensures RowKept(g.mem, t.machine.mem, t.machine.kernel)
  {
    var mem, used := t.machine.mem, t.machine.pmm.used;
    StackedFree(mem, used, t.owned, t.machine.dirs, t.dir, t.machine.ram, g);
    StackedInFull(mem, used, t.owned, t.machine.dirs, t.dir, t.machine.ram, g);
    StackForUsers(mem, used, t.owned, t.machine.dirs, t.machine.kernel, t.dir, t.machine.ram, g);
    ConfinedUnmoved(g.mem, mem, t.machine.dirs, t.dir, LOW_PAGE, LOW_PAGE + STACK_PAGES, dirs);
    Aborted(mem, used, t.owned, t.machine.dirs, t.machine.kernel, t.dir, t.machine.ram, g, m, u);
  }

  /** Another task's frames and heap stay when only free frames are taken and its directory translates as before. */
  lemma OtherTaskKept(m: Memory, used: seq<bool>, m': Memory, used': seq<bool>, dirs: set<nat>, ram: set<nat>,
                      owned: multiset<nat>, d: nat, top: nat)
    requires OnlyNew(m, used, m', used') && Unmoved(m, m', dirs) && d in dirs
    requires OwnedOk(owned, m, ram, used) && HeapOk(m, d, owned, top)
    ensures OwnedOk(owned, m', ram, used') && HeapOk(m', d, owned, top)
  {
    forall f | f in owned
      ensures FrameOk(owned, m', ram, used', f)
    {
      assert FrameOk(owned, m, ram, used, f);
    }
    forall p | BASE_PAGE <= p < top
      ensures PageOk(m', d, owned, p)
    {
      assert Same(m, m', d, p) && PageOk(m, d, owned, p);
    }
    forall p, q | BASE_PAGE <= p < q < top
      ensures Differ(m', d, p, q)
    {
      assert Differ(m, d, p, q) && Same(m, m', d, p) && Same(m, m', d, q);
    }
  }

  /** Another task keeps its heap when a task is created, and the two own different frames. */
  method CreateBeside(other: Task) returns (t: Task?)
    requires other.Valid() && |other.machine.Free()| != 2
    modifies other.machine, other.machine.pmm, other.machine.pmm.words
    ensures other.Valid() && (t != null <==> |old(other.machine.Free())| >= 8)
    ensures t != null ==>
      && fresh(t) && t.machine == other.machine && t.dir != other.dir && t.Valid()
      && forall f :: f in multiset(other.owned) ==> f !in multiset(t.owned)
  {
    var machine := other.machine;
    ghost var u := machine.pmm.used;
    t := CreateTask(machine);
    OtherTaskKept(old(machine.mem), u, machine.mem, machine.pmm.used, old(machine.dirs), machine.ram,
                  multiset(other.owned), other.dir, PageUp(other.Break()));
    if t != null {
      forall f | f in multiset(other.owned)
        ensures f !in multiset(t.owned)
      {
        assert FrameOk(multiset(other.owned), old(machine.mem), machine.ram, u, f);
      }
    }
  }

  /**
   A task that is created and torn down at once: the kernel and all tasks translate as before, and exactly three frames
   are lost, or two if eight were free. They held copies of the stack's table.
   */
  method ComeAndGo(machine: Machine)
    requires machine.Shape() && machine.Ident() && |machine.Free()| >= 8
    modifies machine, machine.pmm, machine.pmm.words
    ensures machine.Shape() && machine.Ident() && machine.dirs == old(machine.dirs)
    ensures Unmoved(old(machine.mem), machine.mem, machine.dirs)
    ensures |machine.Free()| == |old(machine.Free())| - if |old(machine.Free())| == 8 then 2 else 3
  {
    ghost var m, dirs := machine.mem, machine.dirs;
    var t := CreateTask(machine);
    ghost var m1 := machine.mem;
    Release(t);
    ReleasedUnmoved(m1, machine.mem, dirs);
    UnmovedTwice(m, m1, machine.mem, dirs);
    IdentityUnmoved(m, machine.mem, dirs, machine.kernel, machine.ram);
  }

  /** A heap of one page that takes the last two frames. */
  method GrowToLast(t: Task)
    requires t.Valid() && t.brk == HEAP_BASE && |t.owned| < MAX_OWNED && |t.machine.Free()| == 2
    modifies t, t.machine`mem, t.machine.pmm, t.machine.pmm.words
    ensures t.Valid() && t.brk == HEAP_BASE + HeapBreak.PAGE && |t.machine.Free()| == 0
  {
    ghost var r, f;
    r, f := t.SetBreak(HEAP_BASE + HeapBreak.PAGE);
  }

  /** It shrinks again, with no frame free. */
  method ShrinkWithNone(t: Task)
    requires t.Valid() && t.brk == HEAP_BASE + HeapBreak.PAGE && |t.machine.Free()| == 0
    modifies t, t.machine`mem, t.machine.pmm, t.machine.pmm.words
    ensures t.Valid() && t.brk == HEAP_BASE && Stale(t.machine.mem, t.dir, multiset(t.owned), BASE_PAGE)
  {
    assert t.machine.Free() == {};
    ghost var r, f;
    r, f := t.SetBreak(HEAP_BASE);
  }

  /**
   With eleven free frames: a task is created, its heap grows by a page, which takes the last two, and shrinks again.
   The page is then still mapped, to a frame that the task does not own any more.
   */
  method StaleHeap(machine: Machine) returns (t: Task?)
    requires machine.Shape() && machine.Ident() && |machine.Free()| == 11
    modifies machine, machine.pmm, machine.pmm.words
    ensures t != null && fresh(t) && t.machine == machine && t.Valid() && t.brk == HEAP_BASE
    ensures Stale(machine.mem, t.dir, multiset(t.owned), BASE_PAGE)
  {
    t := CreateTask(machine);
    GrowToLast(t);
    ShrinkWithNone(t);
  }

  lemma StackOutOfReach(m: Memory, m': Memory, kernel: nat, d: nat)
    requires Supervised(m, kernel, m.Keys) && Present(m[kernel][STACK_TABLE]) && m.Keys <= m'.Keys
    requires RowKept(m, m', kernel) && StackRights(m', kernel, d)
    ensures !Under(m'.Keys, STACK_TABLE) ==> forall p :: LOW_PAGE <= p < LOW_PAGE + STACK_PAGES ==> !UserCan(m', d, p)
  {
    assert KeepsOut(m[kernel][STACK_TABLE], m.Keys, STACK_TABLE);
  }

  /**
   From what the boot loader says of memory to a first task: with 2056 frames for use it gets its stack. But user mode
   reaches no page of it, unless a table lies in the four megabytes of memory that have the addresses of the stack:
   the flags of directory entries come from the kernel's.
   */
  method FirstTask(regions: seq<Pmm.Region>, kernelEnd: word, buffer: word, screen: nat, n: nat, flags: nat)
    returns (machine: Machine, t: Task?)
    requires |Available(regions, kernelEnd, buffer)| >= 2056
    requires flags == 3 || forall f :: f in Available(regions, kernelEnd, buffer) ==> !OnScreen(screen, n, f)
    ensures machine.Shape() && machine.Ident() && t != null && t.machine == machine && t.Valid()
    ensures AllMapped(StackPages(machine.mem, t.dir), STACK_LOW, STACK_TOP)
    ensures forall k :: 0 <= k < |t.owned| ==> t.owned[k] in Available(regions, kernelEnd, buffer)
    ensures !Under(machine.mem.Keys, STACK_TABLE) ==>
      forall p :: LOW_PAGE <= p < LOW_PAGE + STACK_PAGES ==> !UserCan(machine.mem, t.dir, p)
  {
    machine := BootMachine(regions, kernelEnd, buffer, screen, n, flags);
    ghost var m := machine.mem;
    t := CreateTask(machine);
    StackOutOfReach(m, machine.mem, machine.kernel, t.dir);
    forall k | 0 <= k < |t.owned|
      ensures t.owned[k] in machine.ram
    {
      assert FrameOk(multiset(t.owned), machine.mem, machine.ram, machine.pmm.used, t.owned[k]);
    }
  }
}
