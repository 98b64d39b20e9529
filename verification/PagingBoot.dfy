/** The start of paging (paging.c): the kernel's directory maps every page to itself. */
module PagingBoot {
  import opened PageTables
  import opened Paging
  import opened Sectors
  import Pmm

  /** Each table of the kernel's directory, the only one there is, belongs to one entry. */
  ghost predicate Tidy(mem: Memory, kernel: nat) {
    && Shaped(mem, {kernel}, kernel) && kernel in mem
    && forall i {:trigger Settled(mem, {kernel}, kernel, i)} :: 0 <= i < 1024 && Present(mem[kernel][i]) ==>
         Settled(mem, {kernel}, kernel, i)
  }

  /** Entry `i` gets a new table. */
  lemma TidyTable(mem: Memory, kernel: nat, i: nat, t: nat, flags: nat, table: Table)
    requires Tidy(mem, kernel) && i < 1024 && t !in mem && flags % 2 == 1
    ensures Tidy(WithTable(mem, kernel, i, t, flags, table), kernel)
    ensures forall p :: 0 <= p < PAGES ==>
      Translation(WithTable(mem, kernel, i, t, flags, table), kernel, p) ==
        if p / 1024 == i then table[p % 1024] else Translation(mem, kernel, p)
  {
    var mem' := WithTable(mem, kernel, i, t, flags, table);
    WithTableShape(mem, {kernel}, kernel, kernel, i, t, flags, table);
    WithTableSettled(mem, {kernel}, kernel, kernel, i, t, flags, table);
    forall k | 0 <= k < 1024 && Present(mem'[kernel][k])
      ensures Settled(mem', {kernel}, kernel, k)
    {
      assert k != i ==> Settled(mem, {kernel}, kernel, k);
    }
    forall p | 0 <= p < PAGES
      ensures Translation(mem', kernel, p) == if p / 1024 == i then table[p % 1024] else Translation(mem, kernel, p)
    {
      WithTableTranslation(mem, {kernel}, kernel, kernel, i, t, flags, table, kernel, p);
    }
  }

  /** The entry of page `v` is written into the table that is there. */
  lemma TidyWrite(mem: Memory, kernel: nat, v: nat, e: Entry)
    requires Tidy(mem, kernel) && v < PAGES && Present(mem[kernel][v / 1024])
    ensures mem[kernel][v / 1024].frame in mem
    ensures
      var mem' := WriteShared(mem, mem[kernel][v / 1024].frame, v % 1024, e);
      && Tidy(mem', kernel) && mem'[kernel] == mem[kernel]
      && Isolated(mem, mem', {kernel}, kernel, v) && Translation(mem', kernel, v) == e
  {
    var i, j, t := v / 1024, v % 1024, mem[kernel][v / 1024].frame;
    assert DirOk(mem, {kernel}, kernel) && Settled(mem, {kernel}, kernel, i);
    WriteSharedShape(mem, {kernel}, kernel, t, j, e);
    SharedWriteIsIsolated(mem, {kernel}, kernel, kernel, v, e);
    WriteSharedTranslation(mem, {kernel}, kernel, t, j, e, kernel, v);
    var mem' := WriteShared(mem, t, j, e);
    forall k | 0 <= k < 1024 && Present(mem'[kernel][k])
      ensures Settled(mem', {kernel}, kernel, k)
    {
      assert Settled(mem, {kernel}, kernel, k);
    }
  }

  /** Page `p`, if there was a table for it, translates as it did, or to itself. */
  ghost predicate SameOrOwn(m: Memory, m': Memory, kernel: nat, p: nat)
    requires p < PAGES && kernel in m
  {
    Present(m[kernel][p / 1024]) ==>
      Translation(m', kernel, p) == Translation(m, kernel, p) || Translation(m', kernel, p) == Entry(p, 3)
  }

  /** Tables stay, and pages behind them translate as they did, or to themselves, but for page `v`. */
  ghost predicate Prepared(m: Memory, m': Memory, kernel: nat, v: nat) {
    && kernel in m && Tidy(m', kernel)
    && (forall k :: 0 <= k < 1024 && Present(m[kernel][k]) ==> Present(m'[kernel][k]))
    && (forall p {:trigger SameOrOwn(m, m', kernel, p)} :: 0 <= p < PAGES && p != v ==> SameOrOwn(m, m', kernel, p))
  }

  /** What the protection of a table frame does while the kernel's directory is being filled. */
  lemma ProtectedTidy(m: Memory, m': Memory, kernel: nat, f: nat, t: nat)
    requires Tidy(m, kernel) && f < PAGES && Machine.Protected(m, m', kernel, f, t)
    ensures Prepared(m, m', kernel, PAGES)
  {
    var i := f / 1024;
    var mid := if Present(m[kernel][i]) then m else WithTable(m, kernel, i, t, 7, EmptyTable());
    if !Present(m[kernel][i]) {
      TidyTable(m, kernel, i, t, 7, EmptyTable());
    }
    TidyWrite(mid, kernel, f, Entry(f, 3));
    forall p | 0 <= p < PAGES
      ensures SameOrOwn(m, m', kernel, p)
    {
      if Present(m[kernel][p / 1024]) {
        assert Translation(mid, kernel, p) == Translation(m, kernel, p);
      }
    }
  }

  /** A new table for the entry of page `v`, whatever was there, and the page in it. */
  lemma MappedTidy(m: Memory, m1: Memory, kernel: nat, v: nat, t: nat, flags: nat, low: nat)
    requires kernel in m && Prepared(m, m1, kernel, PAGES) && v < PAGES && !Present(m[kernel][v / 1024]) && t !in m1
    requires low % 2 == 1
    ensures
      var m2 := WithTable(m1, kernel, v / 1024, t, low, EmptyTable());
      Tidy(m2, kernel) && Present(m2[kernel][v / 1024]) && t in m2 &&
      var m' := WriteShared(m2, t, v % 1024, Entry(v, flags));
      Prepared(m, m', kernel, v) && Translation(m', kernel, v) == Entry(v, flags) && Present(m'[kernel][v / 1024])
  {
    var m2 := WithTable(m1, kernel, v / 1024, t, low, EmptyTable());
    TidyTable(m1, kernel, v / 1024, t, low, EmptyTable());
    TidyWrite(m2, kernel, v, Entry(v, flags));
    var m' := WriteShared(m2, t, v % 1024, Entry(v, flags));
    forall p | 0 <= p < PAGES && p != v
      ensures SameOrOwn(m, m', kernel, p)
    {
      assert SameOrOwn(m, m1, kernel, p);
    }
  }

  /** A frame of `frames` lies where the pages of entry `i` map it to itself. */
  ghost predicate Under(frames: set<nat>, i: nat) {
    exists t :: t in frames && t / 1024 == i
  }

  /** Entry `i` keeps user mode out, unless a frame of `frames` lies under it. */
  ghost predicate KeepsOut(e: Entry, frames: set<nat>, i: nat) {
    e.flags == 3 || Under(frames, i)
  }

  /** The present entries of the kernel's directory keep user mode out, but for those over a frame of `frames`. */
  ghost predicate Supervised(mem: Memory, kernel: nat, frames: set<nat>) {
    kernel in mem && forall i {:trigger KeepsOut(mem[kernel][i], frames, i)} ::
      0 <= i < 1024 && Present(mem[kernel][i]) ==> KeepsOut(mem[kernel][i], frames, i)
  }

  lemma SupervisedMore(m: Memory, m': Memory, kernel: nat, frames: set<nat>, frames': set<nat>)
    requires Supervised(m, kernel, frames) && frames <= frames' && kernel in m' && m'[kernel] == m[kernel]
    ensures Supervised(m', kernel, frames')
  {
    forall i | 0 <= i < 1024 && Present(m'[kernel][i])
      ensures KeepsOut(m'[kernel][i], frames', i)
    {
      assert KeepsOut(m[kernel][i], frames, i);
    }
  }

  lemma SupervisedTable(m: Memory, kernel: nat, frames: set<nat>, i: nat, t: nat, flags: nat, table: Table)
    requires Supervised(m, kernel, frames) && i < 1024 && t !in m && (flags == 3 || Under(frames, i))
    ensures Supervised(WithTable(m, kernel, i, t, flags, table), kernel, frames)
  {
    var m' := WithTable(m, kernel, i, t, flags, table);
    forall k | 0 <= k < 1024 && Present(m'[kernel][k])
      ensures KeepsOut(m'[kernel][k], frames, k)
    {
      assert k != i ==> KeepsOut(m[kernel][k], frames, k);
    }
  }

  /** A table frame is protected: the entry over it may be a new one that lets user mode in. */
  lemma SupervisedProtect(m: Memory, m': Memory, kernel: nat, f: nat, t: nat, frames: set<nat>)
    requires Tidy(m, kernel) && Supervised(m, kernel, frames) && f < PAGES && Machine.Protected(m, m', kernel, f, t)
    ensures Supervised(m', kernel, frames + {f})
  {
    SupervisedMore(m, m, kernel, frames, frames + {f});
    var i := f / 1024;
    if !Present(m[kernel][i]) {
      assert Under(frames + {f}, i);
      TidyTable(m, kernel, i, t, 7, EmptyTable());
      SupervisedTable(m, kernel, frames + {f}, i, t, 7, EmptyTable());
    }
    var mid := if Present(m[kernel][i]) then m else WithTable(m, kernel, i, t, 7, EmptyTable());
    TidyWrite(mid, kernel, f, Entry(f, 3));
    SupervisedMore(mid, m', kernel, frames + {f}, frames + {f});
  }

  /** A machine whose only directory is the kernel's. */
  ghost predicate Starting(machine: Machine)
    reads machine, machine.pmm, machine.pmm.words
  {
    machine.Shape() && machine.dirs == {machine.kernel} && Tidy(machine.mem, machine.kernel)
  }

  ghost predicate Guarded(machine: Machine)
    reads machine
  {
    Supervised(machine.mem, machine.kernel, machine.mem.Keys)
  }

  /** Maps page `v` to itself in the kernel's directory; a missing table takes up to two frames. */
  method MapKernelPage(machine: Machine, v: nat, flags: nat)
    requires Starting(machine) && v < PAGES
    requires !Present(machine.mem[machine.kernel][v / 1024]) ==> |machine.Free()| >= 2
    modifies machine`mem, machine.pmm, machine.pmm.words
    ensures Starting(machine) && machine.kernel in old(machine.mem)
    ensures Prepared(old(machine.mem), machine.mem, machine.kernel, v)
    ensures Translation(machine.mem, machine.kernel, v) == Entry(v, flags)
    ensures Present(machine.mem[machine.kernel][v / 1024])
    ensures
      if Present(old(machine.mem)[machine.kernel][v / 1024]) then
        && machine.pmm.used == old(machine.pmm.used)
        && Isolated(old(machine.mem), machine.mem, {machine.kernel}, machine.kernel, v)
      else |machine.Free()| >= |old(machine.Free())| - 2
    ensures old(Guarded(machine)) && (Present(old(machine.mem)[machine.kernel][v / 1024]) || Low(flags) == 3) ==>
      Guarded(machine)
  {
    var kernel, i, j := machine.kernel, v / 1024, v % 1024;
    if !Present(machine.mem[kernel][i]) {
      AddKernelTable(machine, v, flags);
    } else {
      TidyWrite(machine.mem, kernel, v, Entry(v, flags));
      var table := machine.mem[kernel][i].frame;
      machine.mem := WriteShared(machine.mem, table, j, Entry(v, flags));
      HomesAlone(machine.mem, kernel, machine.ram);
      WrittenPrepared(old(machine.mem), machine.mem, kernel, v);
      if old(Guarded(machine)) {
        SupervisedMore(old(machine.mem), machine.mem, kernel, old(machine.mem.Keys), machine.mem.Keys);
      }
    }
  }

  lemma WrittenPrepared(m: Memory, m': Memory, kernel: nat, v: nat)
    requires kernel in m && Tidy(m', kernel) && m'[kernel] == m[kernel] && Isolated(m, m', {kernel}, kernel, v)
    ensures Prepared(m, m', kernel, v)
  {
  }

  /** A first table for the entry of page `v`, and the page in it. */
  method AddKernelTable(machine: Machine, v: nat, flags: nat)
    requires Starting(machine) && v < PAGES && |machine.Free()| >= 2
    requires !Present(machine.mem[machine.kernel][v / 1024])
    modifies machine`mem, machine.pmm, machine.pmm.words
    ensures Starting(machine) && machine.kernel in old(machine.mem)
    ensures Prepared(old(machine.mem), machine.mem, machine.kernel, v)
    ensures Translation(machine.mem, machine.kernel, v) == Entry(v, flags)
    ensures Present(machine.mem[machine.kernel][v / 1024]) && |machine.Free()| >= |old(machine.Free())| - 2
    ensures old(Guarded(machine)) && Low(flags) == 3 ==> Guarded(machine)
  {
    var kernel, i, low := machine.kernel, v / 1024, Low(flags);
    ghost var m := machine.mem;
    var t := machine.TakeFrame();
    ghost var u := machine.ProtectFrame(t);
    ProtectedTidy(m, machine.mem, kernel, t, u);
    MappedTidy(m, machine.mem, kernel, v, t, flags, low);
    ghost var m1 := machine.mem;
    machine.mem := WithTable(machine.mem, kernel, i, t, low, EmptyTable());
    machine.mem := WriteShared(machine.mem, t, v % 1024, Entry(v, flags));
    HomesAlone(machine.mem, kernel, machine.ram);
    if old(Guarded(machine)) && low == 3 {
      StillSupervised(m, m1, machine.mem, kernel, v, t, u, Entry(v, flags));
    }
  }

  lemma StillSupervised(m: Memory, m1: Memory, m': Memory, kernel: nat, v: nat, t: nat, u: nat, e: Entry)
    requires Tidy(m, kernel) && Supervised(m, kernel, m.Keys) && v < PAGES && t < PAGES && t !in m1 && kernel in m1
    requires Machine.Protected(m, m1, kernel, t, u)
    requires var m2 := WithTable(m1, kernel, v / 1024, t, 3, EmptyTable());
      kernel != t && m' == WriteShared(m2, t, v % 1024, e)
    ensures Supervised(m', kernel, m'.Keys)
  {
    SupervisedProtect(m, m1, kernel, t, u, m.Keys);
    SupervisedTable(m1, kernel, m.Keys + {t}, v / 1024, t, 3, EmptyTable());
    var m2 := WithTable(m1, kernel, v / 1024, t, 3, EmptyTable());
    SupervisedMore(m2, m', kernel, m.Keys + {t}, m'.Keys);
  }

  /** How many tables the pages before page `v` need. */
  function Tables(v: nat): nat {
    (v + 1023) / 1024
  }

  lemma TablesStep(v: nat)
    ensures if v % 1024 == 0 then Tables(v) == v / 1024 && Tables(v + 1) == Tables(v) + 1
            else Tables(v + 1) == Tables(v) == v / 1024 + 1
    ensures forall p :: 0 <= p < v ==> p / 1024 < Tables(v)
  {
  }

  /** Pages before `v` are mapped to themselves, and of `free` frames enough are left for the tables of all others. */
  ghost predicate MappedBelow(machine: Machine, v: nat, free: nat)
    reads machine, machine.pmm, machine.pmm.words
  {
    && Starting(machine) && v <= PAGES
    && (forall p {:trigger OwnPage(machine.mem, machine.kernel, p)} :: 0 <= p < v ==>
          OwnPage(machine.mem, machine.kernel, p))
    && (forall k :: 0 <= k < Tables(v) && k < 1024 ==> Present(machine.mem[machine.kernel][k]))
    && |machine.Free()| + 2 * Tables(v) >= free >= 2048 && Guarded(machine)
  }

  method MapNext(machine: Machine, v: nat, ghost free: nat) returns (v': nat)
    requires MappedBelow(machine, v, free) && v < PAGES
    modifies machine`mem, machine.pmm, machine.pmm.words
    ensures v' == v + 1 && MappedBelow(machine, v', free)
  {
    v' := v + 1;
    TablesStep(v);
    ghost var m, kernel := machine.mem, machine.kernel;
    MapKernelPage(machine, v, 3);
    forall p | 0 <= p < v'
      ensures OwnPage(machine.mem, kernel, p)
    {
      if p < v {
        assert OwnPage(m, kernel, p) && SameOrOwn(m, machine.mem, kernel, p);
      }
    }
  }

  /** Maps every page to itself. */
  method MapAll(machine: Machine)
    requires Starting(machine) && Guarded(machine) && |machine.Free()| >= 2048
    modifies machine`mem, machine.pmm, machine.pmm.words
    ensures MappedBelow(machine, PAGES, |old(machine.Free())|)
  {
    ghost var free := |machine.Free()|;
    var v := 0;
    while v < PAGES
      invariant 0 <= v <= PAGES && MappedBelow(machine, v, free)
    {
      v := MapNext(machine, v, free);
    }
  }

  /** Page `p` is the screen's when that has `n` pages from page `screen` on, around the end of memory. */
  ghost predicate OnScreen(screen: nat, n: nat, p: nat) {
    exists k :: 0 <= k < n && p == ScreenPage(screen, k)
  }

  ghost function ScreenPage(screen: nat, k: nat): nat {
    (screen + k) % PAGES
  }

  /** Every page has a table, and its entry is that of itself, with the flags of the screen for its pages. */
  ghost predicate Screened(machine: Machine, screen: nat, n: nat, flags: nat)
    reads machine, machine.pmm, machine.pmm.words
  {
    && Starting(machine) && Guarded(machine) && (forall k :: 0 <= k < 1024 ==> Present(machine.mem[machine.kernel][k]))
    && (forall p {:trigger Translation(machine.mem, machine.kernel, p)} :: 0 <= p < PAGES ==>
          Translation(machine.mem, machine.kernel, p) == Entry(p, if OnScreen(screen, n, p) then flags else 3))
  }

  /** Maps the pages of the screen again, with flags of their own. */
  method MapScreen(machine: Machine, screen: nat, n: nat, flags: nat)
    requires exists free :: MappedBelow(machine, PAGES, free)
    modifies machine`mem, machine.pmm, machine.pmm.words
    ensures Screened(machine, screen, n, flags) && machine.pmm.used == old(machine.pmm.used)
  {
    forall p | 0 <= p < PAGES
      ensures Translation(machine.mem, machine.kernel, p) == Entry(p, 3)
    {
      assert OwnPage(machine.mem, machine.kernel, p);
    }
    for k := 0 to n
      invariant Screened(machine, screen, k, flags) && machine.pmm.used == old(machine.pmm.used)
    {
      ghost var m, kernel := machine.mem, machine.kernel;
      MapKernelPage(machine, (screen + k) % PAGES, flags);
      forall p | 0 <= p < PAGES
        ensures Translation(machine.mem, kernel, p) == Entry(p, if OnScreen(screen, k + 1, p) then flags else 3)
      {
        assert OnScreen(screen, k + 1, p) <==> OnScreen(screen, k, p) || p == ScreenPage(screen, k);
        assert p != ScreenPage(screen, k) ==> Translation(machine.mem, kernel, p) == Translation(m, kernel, p);
      }
    }
  }

  const DIRECTORY := 16

  /** The last two pages that are mapped at the start: page 0 is taken away, and that of the directory is kept. */
  method MapLast(machine: Machine, ghost screen: nat, ghost n: nat, ghost flags: nat)
    requires Screened(machine, screen, n, flags) && machine.kernel == DIRECTORY
    requires 0 !in machine.ram && DIRECTORY !in machine.ram && forall f :: f in machine.ram ==> f < PAGES
    modifies machine`mem, machine.pmm, machine.pmm.words
    ensures Starting(machine) && Guarded(machine) && Translation(machine.mem, machine.kernel, 0) == Entry(0, 2)
    ensures Translation(machine.mem, machine.kernel, DIRECTORY) == Entry(DIRECTORY, 3)
    ensures forall p :: 0 <= p < PAGES && p != 0 && p != DIRECTORY ==>
      Translation(machine.mem, machine.kernel, p) == Entry(p, if OnScreen(screen, n, p) then flags else 3)
    ensures machine.pmm.used == old(machine.pmm.used)
    ensures forall k :: 0 <= k < 1024 ==> Present(machine.mem[machine.kernel][k])
    ensures machine.Ident() <==> flags == 3 || forall f :: f in machine.ram ==> !OnScreen(screen, n, f)
  {
    ghost var m, kernel := machine.mem, machine.kernel;
    MapKernelPage(machine, 0, 2);
    MapKernelPage(machine, DIRECTORY, 3);
    forall f | f in machine.ram
      ensures OwnPage(machine.mem, kernel, f) <==> flags == 3 || !OnScreen(screen, n, f)
    {
      assert Translation(machine.mem, kernel, f) == Translation(m, kernel, f);
    }
  }

  /**
   The start of paging. With 2048 free frames every page but page 0 is mapped to itself. That of a frame which can be
   allocated has the flags 3, exactly as long as the screen, if it has other flags, lies outside of memory.
   */
  method InitPaging(pmm: Pmm.FrameAllocator, screen: nat, n: nat, flags: nat) returns (machine: Machine)
    requires pmm.Ready() && pmm.used[DIRECTORY] && |FreeFrames(pmm.used)| >= 2048
    modifies pmm, pmm.words
    ensures fresh(machine) && machine.pmm == pmm && machine.kernel == DIRECTORY && machine.dirs == {DIRECTORY}
    ensures machine.Shape() && machine.ram == old(FreeFrames(pmm.used)) && |machine.Free()| >= |machine.ram| - 2048
    ensures machine.Ident() <==> flags == 3 || forall f :: f in machine.ram ==> !OnScreen(screen, n, f)
    ensures Guarded(machine)
    ensures forall k :: 0 <= k < 1024 ==> Present(machine.mem[machine.kernel][k])
    ensures Translation(machine.mem, DIRECTORY, 0) == Entry(0, 2)
    ensures Translation(machine.mem, DIRECTORY, DIRECTORY) == Entry(DIRECTORY, 3)
    ensures forall p :: 0 < p < PAGES && p != DIRECTORY ==>
      Translation(machine.mem, DIRECTORY, p) == Entry(p, if OnScreen(screen, n, p) then flags else 3)
  {
    machine := new Machine(DIRECTORY, pmm, map[DIRECTORY := EmptyTable()], FreeFrames(pmm.used));
    MapAll(machine);
    MapScreen(machine, screen, n, flags);
    MapLast(machine, screen, n, flags);
  }

  /** The frames that can be allocated after the boot loader has described memory. */
  ghost function Available(regions: seq<Pmm.Region>, kernelEnd: word, buffer: word): set<nat> {
    set b | 0 < b < Pmm.MAX_BLOCKS && Pmm.Usable(regions, b) && !Pmm.Reserved(kernelEnd, buffer, b)
  }

  /**
   The boot up to the start of paging. When memory has 2048 frames for use and the screen lies outside of it, the kernel
   maps all of it to itself, and tasks can be created.
   */
  method BootMachine(regions: seq<Pmm.Region>, kernelEnd: word, buffer: word, screen: nat, n: nat, flags: nat)
    returns (machine: Machine)
    requires |Available(regions, kernelEnd, buffer)| >= 2048
    ensures fresh(machine) && fresh(machine.pmm) && fresh(machine.pmm.words)
    ensures machine.Shape() && machine.dirs == {machine.kernel}
    ensures machine.ram == Available(regions, kernelEnd, buffer) && |machine.Free()| >= |machine.ram| - 2048
    ensures machine.Ident() <==> flags == 3 || forall f :: f in machine.ram ==> !OnScreen(screen, n, f)
    ensures Guarded(machine)
    ensures forall k :: 0 <= k < 1024 ==> Present(machine.mem[machine.kernel][k])
  {
    var pmm := Pmm.Boot(regions, kernelEnd, buffer);
    assert FreeFrames(pmm.used) == Available(regions, kernelEnd, buffer);
    assert Pmm.Reserved(kernelEnd, buffer, DIRECTORY);
    machine := InitPaging(pmm, screen, n, flags);
  }
}
