/** Page directories of the kernel and its tasks (paging.c, task.c), with tables taken from the frame allocator. */
module Paging {
  import opened PageTables
  import Pmm

  /** The frames that are not in use. */
  ghost function FreeFrames(used: seq<bool>): set<nat> {
    set f | 0 <= f < |used| && !used[f]
  }

  lemma FrameTaken(used: seq<bool>, f: nat)
    requires f < |used| && !used[f]
    ensures FreeFrames(used[f := true]) == FreeFrames(used) - {f}
    ensures |FreeFrames(used[f := true])| == |FreeFrames(used)| - 1
  {
    assert FreeFrames(used[f := true]) == FreeFrames(used) - {f};
    assert f in FreeFrames(used);
  }

  lemma FrameGiven(used: seq<bool>, f: nat)
    requires f < |used| && used[f]
    ensures FreeFrames(used[f := false]) == FreeFrames(used) + {f}
    ensures |FreeFrames(used[f := false])| == |FreeFrames(used)| + 1
  {
    assert FreeFrames(used[f := false]) == FreeFrames(used) + {f};
  }

  class Machine {
    const kernel: nat
    const pmm: Pmm.FrameAllocator
    var mem: Memory
    ghost var dirs: set<nat>
    ghost const ram: set<nat>

    constructor (kernel: nat, pmm: Pmm.FrameAllocator, mem: Memory, ghost ram: set<nat>)
      requires pmm.Ready() && Shaped(mem, {kernel}, kernel) && Tracked(mem, ram, pmm.used)
      ensures this.kernel == kernel && this.pmm == pmm && this.mem == mem && this.ram == ram && dirs == {kernel}
      ensures Shape()
    {
      this.kernel, this.pmm, this.mem, this.ram, dirs := kernel, pmm, mem, ram, {kernel};
      assert DirOk(mem, {kernel}, kernel);
      HomesAlone(mem, kernel, ram);
    }

    /** Frames that hold tables are in use, and free frames are memory. */
    static ghost predicate Tracked(mem: Memory, ram: set<nat>, used: seq<bool>) {
      && (forall f :: f in mem ==> f < |used| && used[f])
      && (forall f :: 0 <= f < |used| && !used[f] ==> f in ram)
    }

    ghost predicate Shape()
      reads this, pmm, pmm.words
    {
      pmm.Ready() && Shaped(mem, dirs, kernel) && Tracked(mem, ram, pmm.used) && Homes(mem, dirs, kernel, ram)
    }

    ghost predicate Ident()
      reads this
    {
      Identity(mem, kernel, ram)
    }

    ghost function Free(): set<nat>
      reads pmm
    {
      FreeFrames(pmm.used)
    }

    /** A frame number from the allocator, or 0. */
    method TakeFrame() returns (f: nat)
      requires Shape()
      modifies pmm, pmm.words
      ensures Shape()
      ensures f == 0 <==> old(Free()) == {}
      ensures f == 0 ==> pmm.used == old(pmm.used)
      ensures f != 0 ==>
        && f < |old(pmm.used)| && !old(pmm.used)[f] && f !in mem && f in ram
        && pmm.used == old(pmm.used)[f := true] && Free() == old(Free()) - {f} && |Free()| == |old(Free())| - 1
    {
      var addr;
      ghost var found, bit;
      addr, found, bit := pmm.Alloc();
      f := addr / Pmm.BLOCK_SIZE;
      if addr != 0 {
        FrameTaken(old(pmm.used), f);
      }
      assert f != 0 ==> f in old(Free());
    }

    method GiveFrame(f: nat)
      requires Shape() && 0 < f < |pmm.used| && f in ram && f !in mem
      modifies pmm, pmm.words
      ensures Shape()
      ensures pmm.used == old(pmm.used)[f := false]
      ensures old(pmm.used)[f] ==> Free() == old(Free()) + {f} && |Free()| == |old(Free())| + 1
    {
      if pmm.used[f] {
        FrameGiven(pmm.used, f);
      }
      assert Pmm.BLOCK_SIZE * f / Pmm.BLOCK_SIZE == f;
      pmm.Free(Pmm.BLOCK_SIZE * f);
    }

    /** Frames that came into `mem` were free before, and all that were there still are. */
    static ghost predicate OnlyFresh(mem: Memory, used: seq<bool>, mem': Memory) {
      && (forall g :: g in mem ==> g in mem')
      && (forall g :: g in mem' && g !in mem ==> g < |used| && !used[g])
    }

    static ghost predicate OnlyTaken(used: seq<bool>, used': seq<bool>) {
      |used'| == |used| && forall g :: 0 <= g < |used| && used[g] ==> used'[g]
    }

    /** Makes sure that the kernel has a table for entry `i`; a new one is in frame `t`. */
    method KernelTable(i: nat) returns (ok: bool, ghost t: nat)
      requires Shape() && i < 1024 && kernel in mem
      modifies this`mem, pmm, pmm.words
      ensures Shape() && OnlyFresh(old(mem), old(pmm.used), mem) && OnlyTaken(old(pmm.used), pmm.used)
      ensures forall d :: d in dirs && d != kernel ==> d in mem && d in old(mem) && mem[d] == old(mem)[d]
      ensures Present(old(mem)[kernel][i]) ==> ok && mem == old(mem) && pmm.used == old(pmm.used)
      ensures ok ==> kernel in mem && Present(mem[kernel][i])
      ensures !Present(old(mem)[kernel][i]) ==> (ok <==> old(Free()) != {})
      ensures ok && !Present(old(mem)[kernel][i]) ==>
        && t !in old(mem) && mem == WithTable(old(mem), kernel, i, t, 7, EmptyTable())
        && |Free()| == |old(Free())| - 1
    {
      ok, t := true, 0;
      assert forall d :: d in dirs ==> DirOk(mem, dirs, d);
      if !Present(mem[kernel][i]) {
        var f := TakeFrame();
        if f == 0 {
          return false, 0;
        }
        WithTableShape(mem, dirs, kernel, kernel, i, f, 7, EmptyTable());
        HomesTable(mem, dirs, kernel, ram, kernel, i, f, 7, EmptyTable());
        mem := WithTable(mem, kernel, i, f, 7, EmptyTable());
        t := f;
      }
    }

    /** The kernel has a table for frame `f`, perhaps a new one in frame `t`, and its entry is written. */
    static ghost predicate Protected(m: Memory, m': Memory, kernel: nat, f: nat, t: nat)
      requires f < PAGES
    {
      var i := f / 1024;
      kernel in m &&
      var mid := if Present(m[kernel][i]) then m else WithTable(m, kernel, i, t, 7, EmptyTable());
      && (!Present(m[kernel][i]) ==> t !in m)
      && kernel in mid && mid[kernel][i].frame in mid
      && m' == WriteShared(mid, mid[kernel][i].frame, f % 1024, Entry(f, 3))
    }

    /**
     Gives the kernel's own page for a frame the flags of a table. Where the kernel maps memory to itself this changes
     nothing.
     */
    method ProtectFrame(f: nat) returns (ghost t: nat)
      requires Shape() && f < PAGES
      modifies this`mem, pmm, pmm.words
      ensures Shape() && OnlyFresh(old(mem), old(pmm.used), mem) && OnlyTaken(old(pmm.used), pmm.used)
      ensures forall d :: d in dirs && d != kernel ==> d in mem && d in old(mem) && mem[d] == old(mem)[d]
      ensures old(Ident()) && f in ram ==> mem == old(mem) && pmm.used == old(pmm.used)
      ensures old(Free()) != {} ==> Protected(old(mem), mem, kernel, f, t) && |Free()| >= |old(Free())| - 1
    {
      var i, j := f / 1024, f % 1024;
      assert DirOk(mem, dirs, kernel);
      assert old(Ident()) && f in ram ==> OwnPage(old(mem), kernel, f);
      var ok;
      ok, t := KernelTable(i);
      if ok {
        assert DirOk(mem, dirs, kernel);
        var table := mem[kernel][i].frame;
        WriteSharedShape(mem, dirs, kernel, table, j, Entry(f, 3));
        HomesWrite(mem, dirs, kernel, ram, table, j, Entry(f, 3));
        WriteSame(mem, table, j);
        mem := WriteShared(mem, table, j, Entry(f, 3));
      }
    }

    /** A frame for a table, protected; 0 if there is none. */
    method TableFrame() returns (f: nat)
      requires Shape()
      modifies this`mem, pmm, pmm.words
      ensures Shape() && OnlyFresh(old(mem), old(pmm.used), mem) && OnlyTaken(old(pmm.used), pmm.used)
      ensures f == 0 <==> old(Free()) == {}
      ensures f == 0 ==> mem == old(mem) && pmm.used == old(pmm.used)
      ensures f != 0 ==> f < |pmm.used| && pmm.used[f] && f !in mem && !old(pmm.used)[f] && f in ram
      ensures forall d :: d in dirs && d != kernel ==> d in mem && d in old(mem) && mem[d] == old(mem)[d]
      ensures old(Ident()) && f != 0 ==> mem == old(mem) && |Free()| == |old(Free())| - 1
      ensures |old(Free())| >= 2 ==> f < PAGES && exists t: nat :: Protected(old(mem), mem, kernel, f, t)
    {
      assert forall d :: d in dirs ==> DirOk(mem, dirs, d);
      f := TakeFrame();
      if f != 0 {
        ghost var t := ProtectFrame(f);
      }
    }

    /** The loop that copies a table. */
    method CopyTable(t: nat) returns (copy: Table)
      requires t in mem
      ensures copy == mem[t]
    {
      copy := EmptyTable();
      var i := 0;
      while i < 1024
        invariant 0 <= i <= 1024 && forall k :: 0 <= k < i ==> copy[k] == mem[t][k]
      {
        copy := copy[i := mem[t][i]];
        i := i + 1;
      }
    }

    /** What unmapping page `v` of directory `d` does when a frame is free. */
    ghost predicate Unmapped(was: Memory, d: nat, v: nat)
      requires v < PAGES
      reads this
    {
      && d in mem && Isolated(was, mem, dirs, d, v) && Translation(mem, d, v) == NoEntry()
      && Settled(mem, dirs, d, v / 1024) && SettledKept(was, mem, dirs, d) && RowsKept(was, mem, dirs, d, v / 1024)
    }

    /** Puts a copy of a table, without page `v`, into frame `f`. */
    method Recopy(d: nat, v: nat, f: nat)
      requires Shape() && d in dirs && d != kernel && v < PAGES && d in mem && Present(mem[d][v / 1024])
      requires 0 < f < |pmm.used| && pmm.used[f] && f !in mem && f in ram
      modifies this`mem
      ensures Shape() && mem.Keys == old(mem.Keys) + {f} && Unmapped(old(mem), d, v) && (old(Ident()) ==> Ident())
    {
      var i, j := v / 1024, v % 1024;
      assert DirOk(mem, dirs, d);
      CopiedTable(mem, dirs, kernel, d, v, f, NoEntry());
      var copy := CopyTable(mem[d][i].frame);
      WithTableRows(mem, dirs, kernel, d, i, f, mem[d][i].flags, copy[j := NoEntry()]);
      HomesTable(mem, dirs, kernel, ram, d, i, f, mem[d][i].flags, copy[j := NoEntry()]);
      mem := WithTable(mem, d, i, f, mem[d][i].flags, copy[j := NoEntry()]);
      if old(Ident()) {
        IdentityKept(old(mem), mem, dirs, kernel, ram, d, v);
      }
    }

    /** Unmaps a page of a task in a copy of the table; without a free frame for the copy nothing happens. */
    method UnmapPage(d: nat, v: nat)
      requires Shape() && d in dirs && d != kernel && v < PAGES
      modifies this`mem, pmm, pmm.words
      ensures Shape() && OnlyFresh(old(mem), old(pmm.used), mem) && OnlyTaken(old(pmm.used), pmm.used) && d in old(mem)
      ensures !Present(old(mem)[d][v / 1024]) || old(Free()) == {} ==> mem == old(mem) && pmm.used == old(pmm.used)
      ensures old(Ident()) && Present(old(mem)[d][v / 1024]) && old(Free()) != {} ==>
        Ident() && Unmapped(old(mem), d, v) && |Free()| == |old(Free())| - 1
    {
      assert DirOk(mem, dirs, d);
      if Present(mem[d][v / 1024]) {
        var f := TableFrame();
        if f != 0 {
          Recopy(d, v, f);
        }
      }
    }

    /** Writes a translation into the table of directory `d`, a new one if it has none. */
    method MapPage(d: nat, phys: nat, v: nat, flags: nat)
      requires Shape() && d in dirs && d != kernel && v < PAGES
      modifies this`mem, pmm, pmm.words
      ensures Shape() && OnlyFresh(old(mem), old(pmm.used), mem) && OnlyTaken(old(pmm.used), pmm.used) && d in old(mem)
      ensures Present(old(mem)[d][v / 1024]) ==>
        && old(mem)[d][v / 1024].frame in old(mem) && pmm.used == old(pmm.used) && SettledKept(old(mem), mem, dirs, d)
        && RowsKept(old(mem), mem, dirs, d, v / 1024)
        && mem == WriteShared(old(mem), old(mem)[d][v / 1024].frame, v % 1024, Entry(phys, flags))
      ensures !Present(old(mem)[d][v / 1024]) && old(Free()) == {} ==> mem == old(mem) && pmm.used == old(pmm.used)
      ensures old(Ident()) && !Present(old(mem)[d][v / 1024]) && old(Free()) != {} ==>
        && Ident() && Isolated(old(mem), mem, dirs, d, v) && Translation(mem, d, v) == Entry(phys, flags)
        && Settled(mem, dirs, d, v / 1024) && SettledKept(old(mem), mem, dirs, d) && |Free()| == |old(Free())| - 1
        && RowsKept(old(mem), mem, dirs, d, v / 1024) && (UserCan(mem, d, v) <==> ForUsers(Entry(phys, flags)))
    {
      assert DirOk(mem, dirs, d);
      if !Present(mem[d][v / 1024]) {
        var f := TableFrame();
        if f != 0 {
          AddTable(d, phys, v, flags, f);
        }
      } else {
        var table := mem[d][v / 1024].frame;
        WriteSharedShape(mem, dirs, kernel, table, v % 1024, Entry(phys, flags));
        WriteSharedRows(mem, dirs, kernel, d, v / 1024, table, v % 1024, Entry(phys, flags));
        HomesWrite(mem, dirs, kernel, ram, table, v % 1024, Entry(phys, flags));
        mem := WriteShared(mem, table, v % 1024, Entry(phys, flags));
      }
    }

    /** A first table for an entry of directory `d`, with the one translation. */
    method AddTable(d: nat, phys: nat, v: nat, flags: nat, f: nat)
      requires Shape() && d in dirs && d != kernel && v < PAGES && d in mem && !Present(mem[d][v / 1024])
      requires 0 < f < |pmm.used| && pmm.used[f] && f !in mem && f in ram
      modifies this`mem
      ensures Shape() && mem.Keys == old(mem.Keys) + {f} && (old(Ident()) ==> Ident())
      ensures Isolated(old(mem), mem, dirs, d, v) && Translation(mem, d, v) == Entry(phys, flags)
      ensures Settled(mem, dirs, d, v / 1024) && SettledKept(old(mem), mem, dirs, d)
      ensures RowsKept(old(mem), mem, dirs, d, v / 1024)
      ensures UserCan(mem, d, v) <==> ForUsers(Entry(phys, flags))
    {
      var i, j, low := v / 1024, v % 1024, Low(flags);
      FirstTable(mem, dirs, kernel, d, v, f, low, Entry(phys, flags));
      HomesTable(mem, dirs, kernel, ram, d, i, f, low, EmptyTable()[j := Entry(phys, flags)]);
      mem := mem[f := EmptyTable()];
      mem := mem[d := mem[d][i := Entry(f, low)]];
      mem := mem[f := mem[f][j := Entry(phys, flags)]];
      assert mem == WithTable(old(mem), d, i, f, low, EmptyTable()[j := Entry(phys, flags)]);
      WithTableRows(old(mem), dirs, kernel, d, i, f, low, EmptyTable()[j := Entry(phys, flags)]);
      if old(Ident()) {
        IdentityKept(old(mem), mem, dirs, kernel, ram, d, v);
      }
    }

    /**
     Maps a page of a task. While a frame is free, only that page of that task is affected, and user mode reaches it
     exactly if the flags say so and the directory entry, if there was one, says so too. Without a free frame the write
     goes to the table that is there, or, if there is none, nothing happens.
     */
    method MapUserPage(d: nat, phys: nat, v: nat, flags: nat)
      requires Shape() && d in dirs && d != kernel && v < PAGES
      modifies this`mem, pmm, pmm.words
      ensures Shape() && OnlyFresh(old(mem), old(pmm.used), mem) && OnlyTaken(old(pmm.used), pmm.used) && d in old(mem)
      ensures old(Ident()) && old(Free()) != {} ==>
        && Ident() && Isolated(old(mem), mem, dirs, d, v) && Translation(mem, d, v) == Entry(phys, flags)
        && Settled(mem, dirs, d, v / 1024) && SettledKept(old(mem), mem, dirs, d) && |Free()| == |old(Free())| - 1
        && RowsKept(old(mem), mem, dirs, d, v / 1024)
      ensures old(Ident()) && old(Free()) != {} ==>
        (UserCan(mem, d, v) <==>
          ForUsers(Entry(phys, flags)) && (Present(old(mem)[d][v / 1024]) ==> ForUsers(old(mem)[d][v / 1024])))
      ensures old(Free()) == {} ==> SettledKept(old(mem), mem, dirs, d) && pmm.used == old(pmm.used)
      ensures old(Free()) == {} ==>
        if Present(old(mem)[d][v / 1024]) then
          && old(mem)[d][v / 1024].frame in old(mem)
          && mem == WriteShared(old(mem), old(mem)[d][v / 1024].frame, v % 1024, Entry(phys, flags))
          && Translation(mem, d, v) == Entry(phys, flags)
          && (Isolated(old(mem), mem, dirs, d, v) <==>
              Private(old(mem), dirs, d, v / 1024) || Translation(old(mem), d, v) == Entry(phys, flags))
        else mem == old(mem)
    {
      assert DirOk(mem, dirs, d);
      ghost var had := Present(mem[d][v / 1024]);
      UnmapPage(d, v);
      ghost var mid := mem;
      MapPage(d, phys, v, flags);
      if had && (old(Ident()) || old(Free()) == {}) {
        SharedWriteIsIsolated(mid, dirs, kernel, d, v, Entry(phys, flags));
        WriteSharedTranslation(mid, dirs, kernel, mid[d][v / 1024].frame, v % 1024, Entry(phys, flags), d, v);
        if old(Free()) != {} {
          IsolatedTwice(old(mem), mid, mem, dirs, d, v);
          SettledKeptTwice(old(mem), mid, mem, dirs, d);
          RowsKeptTwice(old(mem), mid, mem, dirs, d, v / 1024);
          assert Settled(mid, dirs, d, v / 1024) && Settled(mem, dirs, d, v / 1024);
          IdentityKept(mid, mem, dirs, kernel, ram, d, v);
        }
      }
    }

    /** A directory for a new task: a copy of the kernel's, with all its tables shared. */
    method CloneKernel() returns (d: nat)
      requires Shape()
      modifies this, pmm, pmm.words
      ensures Shape()
      ensures d == 0 <==> old(Free()) == {}
      ensures d != 0 ==> d !in old(dirs) && dirs == old(dirs) + {d}
      ensures d == 0 ==> dirs == old(dirs) && mem == old(mem) && pmm.used == old(pmm.used)
      ensures d != 0 ==> d in mem && kernel in mem && mem[d] == mem[kernel]
      ensures old(Ident()) && d != 0 ==> |Free()| == |old(Free())| - 1
      ensures OnlyFresh(old(mem), old(pmm.used), mem) && OnlyTaken(old(pmm.used), pmm.used)
      ensures d != 0 ==> d < |old(pmm.used)| && !old(pmm.used)[d] && pmm.used[d]
      ensures old(Ident()) && d != 0 ==> mem == old(mem)[d := mem[kernel]]
      ensures old(Ident()) ==>
        && Ident()
        && (forall d', v :: d' in old(dirs) && 0 <= v < PAGES ==>
            Translation(mem, d', v) == Translation(old(mem), d', v))
        && (d != 0 ==> forall v :: 0 <= v < PAGES ==> Translation(mem, d, v) == Translation(old(mem), kernel, v))
    {
      d := TableFrame();
      if d != 0 {
        assert DirOk(mem, dirs, kernel);
        Cloned(mem, dirs, kernel, d);
        var copy := CopyTable(kernel);
        HomesClone(mem, dirs, kernel, ram, d);
        forall f | old(Ident()) && f in ram
          ensures OwnPage(mem[d := copy], kernel, f)
        {
          assert OwnPage(mem, kernel, f);
        }
        mem := mem[d := copy];
        dirs := dirs + {d};
      }
    }

    /**
     A mapping that reaches the kernel: when a new directory takes the last free frame, the first mapping of its task is
     written into the table that it shares with the kernel, where memory is then no longer mapped to itself.
     */
    method MapWithLastFrame(phys: nat, v: nat) returns (d: nat)
      requires Shape() && Ident() && |Free()| == 1 && v in ram && v < PAGES
      modifies this, pmm, pmm.words
      ensures d in dirs && d !in old(dirs) && Translation(old(mem), kernel, v) == Entry(v, 3)
      ensures Translation(mem, kernel, v) == Translation(mem, d, v) == Entry(phys, 7) && !Ident()
    {
      assert OwnPage(mem, kernel, v);
      d := CloneKernel();
      assert OwnPage(mem, kernel, v) && DirOk(mem, dirs, kernel);
      var table := mem[d][v / 1024].frame;
      WriteSharedTranslation(mem, dirs, kernel, table, v % 1024, Entry(phys, 7), kernel, v);
      MapUserPage(d, phys, v, 7);
      assert !OwnPage(mem, kernel, v);
    }
  }
}
