/** Two-level page tables (paging.c) as values: the frames that hold them, and the translations they give. */
module PageTables {

  const PAGES := 1048576

  /** A directory or table entry; bit 0 of the flags says that it is present. */
  datatype Entry = Entry(frame: nat, flags: nat)

  type Table = s: seq<Entry> | |s| == 1024 witness seq(1024, _ => Entry(0, 0))

  /** The contents of the frames that hold directories and tables. */
  type Memory = map<nat, Table>

  function NoEntry(): Entry {
    Entry(0, 0)
  }

  function EmptyTable(): (t: Table)
    ensures forall j :: 0 <= j < 1024 ==> t[j] == NoEntry()
  {
    seq(1024, _ => NoEntry())
  }

  predicate Present(e: Entry) {
    e.flags % 2 == 1
  }

  /** Every present entry of directory `d` points to a table. */
  ghost predicate DirOk(mem: Memory, dirs: set<nat>, d: nat) {
    && d in mem
    && forall i :: 0 <= i < 1024 && Present(mem[d][i]) ==> mem[d][i].frame in mem && mem[d][i].frame !in dirs
  }

  ghost predicate Shaped(mem: Memory, dirs: set<nat>, kernel: nat) {
    kernel in dirs && forall d :: d in dirs ==> DirOk(mem, dirs, d)
  }

  /** The table entry that directory `d` has for page `v`. */
  function Translation(mem: Memory, d: nat, v: nat): Entry
    requires v < PAGES
  {
    if d in mem && Present(mem[d][v / 1024]) && mem[d][v / 1024].frame in mem
    then mem[mem[d][v / 1024].frame][v % 1024]
    else NoEntry()
  }

  /** The entry lets user mode read and write. */
  predicate ForUsers(e: Entry) {
    Present(e) && e.flags / 2 % 2 == 1 && e.flags / 4 % 2 == 1
  }

  /** User mode reaches page `v`: the entry of the directory and that of the table both let it. */
  ghost predicate UserCan(mem: Memory, d: nat, v: nat)
    requires v < PAGES
  {
    d in mem && ForUsers(mem[d][v / 1024]) && ForUsers(Translation(mem, d, v))
  }

  /** The flags of a new directory entry: present, and the other two of the three lowest as for its first page. */
  function Low(flags: nat): (low: nat)
    ensures low < 8 && low % 2 == 1 && low / 2 % 2 == flags / 2 % 2 && low / 4 % 2 == flags / 4 % 2
  {
    1 + 2 * (flags / 2 % 2) + 4 * (flags / 4 % 2)
  }

  /** The kernel maps each frame that can be allocated to the page of the same number. */
  ghost predicate Identity(mem: Memory, kernel: nat, ram: set<nat>) {
    forall f {:trigger OwnPage(mem, kernel, f)} :: f in ram ==> OwnPage(mem, kernel, f)
  }

  ghost predicate OwnPage(mem: Memory, kernel: nat, f: nat) {
    f < PAGES && Translation(mem, kernel, f) == Entry(f, 3)
  }

  /** No translation changes but that of page `v` in directory `d`. */
  ghost predicate Isolated(mem: Memory, mem': Memory, dirs: set<nat>, d: nat, v: nat) {
    forall d', v' :: d' in dirs && 0 <= v' < PAGES && !(d' == d && v' == v) ==>
      Translation(mem', d', v') == Translation(mem, d', v')
  }

  /** No other directory entry points to the table that entry `i` of directory `d` points to. */
  ghost predicate Private(mem: Memory, dirs: set<nat>, d: nat, i: nat)
    requires i < 1024 && d in mem
  {
    forall d', i' :: d' in dirs && d' in mem && 0 <= i' < 1024 && Present(mem[d'][i']) && !(d' == d && i' == i) ==>
      mem[d'][i'].frame != mem[d][i].frame
  }

  /** Entry `i` of directory `d` points to a table of its own. */
  ghost predicate Settled(mem: Memory, dirs: set<nat>, d: nat, i: nat)
    requires i < 1024
  {
    d in mem && Present(mem[d][i]) && Private(mem, dirs, d, i)
  }

  /** Entries of directory `d` that point to tables of their own still do. */
  ghost predicate SettledKept(mem: Memory, mem': Memory, dirs: set<nat>, d: nat) {
    forall i {:trigger Settled(mem', dirs, d, i)} :: 0 <= i < 1024 && Settled(mem, dirs, d, i) ==>
      Settled(mem', dirs, d, i)
  }

  lemma SettledKeptTwice(m0: Memory, m1: Memory, m2: Memory, dirs: set<nat>, d: nat)
    requires SettledKept(m0, m1, dirs, d) && SettledKept(m1, m2, dirs, d)
    ensures SettledKept(m0, m2, dirs, d)
  {
    forall i | 0 <= i < 1024 && Settled(m0, dirs, d, i)
      ensures Settled(m2, dirs, d, i)
    {
      assert Settled(m1, dirs, d, i);
    }
  }

  ghost predicate RowKept(mem: Memory, mem': Memory, d: nat) {
    d in mem && d in mem' && mem'[d] == mem[d]
  }

  ghost predicate EntryKept(mem: Memory, mem': Memory, d: nat, i: nat)
    requires i < 1024
  {
    d in mem && d in mem' && mem'[d][i] == mem[d][i]
  }

  /**
   Directories are as before, but for entry `i` of directory `d`, which may point to a frame that held no table; if it
   was present, its flags stay.
   */
  ghost predicate RowsKept(mem: Memory, mem': Memory, dirs: set<nat>, d: nat, i: nat)
    requires i < 1024
  {
    && (forall d' {:trigger RowKept(mem, mem', d')} :: d' in dirs && d' != d ==> RowKept(mem, mem', d'))
    && (forall k {:trigger EntryKept(mem, mem', d, k)} :: 0 <= k < 1024 && k != i ==> EntryKept(mem, mem', d, k))
    && d in mem && d in mem' && (mem'[d][i] == mem[d][i] || mem'[d][i].frame !in mem)
    && (Present(mem[d][i]) ==> mem'[d][i].flags == mem[d][i].flags)
  }

  lemma WithTableRows(mem: Memory, dirs: set<nat>, kernel: nat, d: nat, i: nat, f: nat, flags: nat, t: Table)
    requires Shaped(mem, dirs, kernel) && d in dirs && d in mem && i < 1024 && f !in mem
    requires Present(mem[d][i]) ==> flags == mem[d][i].flags
    ensures RowsKept(mem, WithTable(mem, d, i, f, flags, t), dirs, d, i)
  {
    forall d' | d' in dirs && d' != d
      ensures RowKept(mem, WithTable(mem, d, i, f, flags, t), d')
    {
      assert DirOk(mem, dirs, d');
    }
  }

  lemma WriteSharedRows(mem: Memory, dirs: set<nat>, kernel: nat, d: nat, i: nat, t: nat, j: nat, e: Entry)
    requires Shaped(mem, dirs, kernel) && d in dirs && i < 1024 && t in mem && t !in dirs && j < 1024
    ensures RowsKept(mem, WriteShared(mem, t, j, e), dirs, d, i)
  {
    assert forall d' :: d' in dirs ==> DirOk(mem, dirs, d');
  }

  lemma RowsKeptTwice(m0: Memory, m1: Memory, m2: Memory, dirs: set<nat>, d: nat, i: nat)
    requires i < 1024 && RowsKept(m0, m1, dirs, d, i) && RowsKept(m1, m2, dirs, d, i) && forall g :: g in m0 ==> g in m1
    ensures RowsKept(m0, m2, dirs, d, i)
  {
    forall d' | d' in dirs && d' != d
      ensures RowKept(m0, m2, d')
    {
      assert RowKept(m0, m1, d') && RowKept(m1, m2, d');
    }
    forall k | 0 <= k < 1024 && k != i
      ensures EntryKept(m0, m2, d, k)
    {
      assert EntryKept(m0, m1, d, k) && EntryKept(m1, m2, d, k);
    }
  }

  // ---- writing an entry into the table that is there ----

  function WriteShared(mem: Memory, t: nat, j: nat, e: Entry): Memory
    requires t in mem && j < 1024
  {
    mem[t := mem[t][j := e]]
  }

  lemma WriteSame(mem: Memory, t: nat, j: nat)
    requires t in mem && j < 1024
    ensures WriteShared(mem, t, j, mem[t][j]) == mem
  {
    assert mem[t][j := mem[t][j]] == mem[t];
  }

  lemma WriteSharedShape(mem: Memory, dirs: set<nat>, kernel: nat, t: nat, j: nat, e: Entry)
    requires Shaped(mem, dirs, kernel) && t in mem && t !in dirs && j < 1024
    ensures Shaped(WriteShared(mem, t, j, e), dirs, kernel)
    ensures forall d :: d in dirs ==> SettledKept(mem, WriteShared(mem, t, j, e), dirs, d)
  {
    var mem' := WriteShared(mem, t, j, e);
    forall d | d in dirs
      ensures DirOk(mem', dirs, d)
    {
      assert DirOk(mem, dirs, d);
    }
  }

  /** What every directory translates after such a write: those that share the table all see it. */
  lemma WriteSharedTranslation(mem: Memory, dirs: set<nat>, kernel: nat, t: nat, j: nat, e: Entry, d: nat, v: nat)
    requires Shaped(mem, dirs, kernel) && t in mem && t !in dirs && j < 1024 && d in dirs && v < PAGES
    ensures Translation(WriteShared(mem, t, j, e), d, v)
      == if Present(mem[d][v / 1024]) && mem[d][v / 1024].frame == t && v % 1024 == j then e else Translation(mem, d, v)
  {
    assert DirOk(mem, dirs, d);
  }

  /**
   A write for page `v` of directory `d` into the table that is there stays between the two exactly if no other entry
   shares the table, or the table says so already.
   */
  lemma SharedWriteIsIsolated(mem: Memory, dirs: set<nat>, kernel: nat, d: nat, v: nat, e: Entry)
    requires Shaped(mem, dirs, kernel) && d in dirs && v < PAGES && d in mem && Present(mem[d][v / 1024])
    requires mem[d][v / 1024].frame in mem
    ensures Isolated(mem, WriteShared(mem, mem[d][v / 1024].frame, v % 1024, e), dirs, d, v)
      <==> Private(mem, dirs, d, v / 1024) || Translation(mem, d, v) == e
  {
    var i, j, t := v / 1024, v % 1024, mem[d][v / 1024].frame;
    var mem' := WriteShared(mem, t, j, e);
    assert DirOk(mem, dirs, d);
    forall d', v' | d' in dirs && 0 <= v' < PAGES
      ensures Translation(mem', d', v')
        == if Present(mem[d'][v' / 1024]) && mem[d'][v' / 1024].frame == t && v' % 1024 == j then e
           else Translation(mem, d', v')
    {
      WriteSharedTranslation(mem, dirs, kernel, t, j, e, d', v');
    }
    if Isolated(mem, mem', dirs, d, v) && Translation(mem, d, v) != e {
      forall d', i' | d' in dirs && d' in mem && 0 <= i' < 1024 && Present(mem[d'][i']) && !(d' == d && i' == i)
        ensures mem[d'][i'].frame != t
      {
        var v' := 1024 * i' + j;
        assert v' / 1024 == i' && v' % 1024 == j;
        assert Translation(mem', d', v') == Translation(mem, d', v');
      }
    } else if Private(mem, dirs, d, i) {
      forall d', v' | d' in dirs && 0 <= v' < PAGES && !(d' == d && v' == v)
        ensures Translation(mem', d', v') == Translation(mem, d', v')
      {
        assert DirOk(mem, dirs, d');
        assert v' == 1024 * (v' / 1024) + v' % 1024 && v == 1024 * i + j;
      }
    }
  }

  // ---- a new table for one directory entry ----

  /** Entry `i` of directory `d` points to the fresh frame `f`, which holds table `t`. */
  function WithTable(mem: Memory, d: nat, i: nat, f: nat, flags: nat, t: Table): Memory
    requires d in mem && i < 1024
  {
    mem[f := t][d := mem[d][i := Entry(f, flags)]]
  }

  lemma WithTableShape(mem: Memory, dirs: set<nat>, kernel: nat, d: nat, i: nat, f: nat, flags: nat, t: Table)
    requires Shaped(mem, dirs, kernel) && d in dirs && d in mem && i < 1024 && f !in mem && flags % 2 == 1
    ensures Shaped(WithTable(mem, d, i, f, flags, t), dirs, kernel)
    ensures Private(WithTable(mem, d, i, f, flags, t), dirs, d, i)
  {
    var mem' := WithTable(mem, d, i, f, flags, t);
    forall d' | d' in dirs
      ensures DirOk(mem', dirs, d')
    {
      assert DirOk(mem, dirs, d');
    }
    forall d', i' | d' in dirs && d' in mem' && 0 <= i' < 1024 && Present(mem'[d'][i']) && !(d' == d && i' == i)
      ensures mem'[d'][i'].frame != f
    {
      assert DirOk(mem, dirs, d');
    }
  }

  lemma WithTableSettled(mem: Memory, dirs: set<nat>, kernel: nat, d: nat, i: nat, f: nat, flags: nat, t: Table)
    requires Shaped(mem, dirs, kernel) && d in dirs && d in mem && i < 1024 && f !in mem && flags % 2 == 1
    ensures SettledKept(mem, WithTable(mem, d, i, f, flags, t), dirs, d)
    ensures Settled(WithTable(mem, d, i, f, flags, t), dirs, d, i)
  {
    var mem' := WithTable(mem, d, i, f, flags, t);
    WithTableShape(mem, dirs, kernel, d, i, f, flags, t);
    forall k | 0 <= k < 1024 && Settled(mem, dirs, d, k)
      ensures Settled(mem', dirs, d, k)
    {
      assert DirOk(mem, dirs, d);
      forall d', i' | d' in dirs && d' in mem' && 0 <= i' < 1024 && Present(mem'[d'][i']) && !(d' == d && i' == k)
        ensures mem'[d'][i'].frame != mem'[d][k].frame
      {
        assert DirOk(mem, dirs, d');
      }
    }
  }

  /** Only the pages behind that entry may translate differently, and they do as the new table says. */
  lemma WithTableTranslation(mem: Memory, dirs: set<nat>, kernel: nat, d: nat, i: nat, f: nat, flags: nat, t: Table,
                             d': nat, v: nat)
    requires Shaped(mem, dirs, kernel) && d in dirs && d in mem && i < 1024 && f !in mem && flags % 2 == 1
    requires d' in dirs && v < PAGES
    ensures Translation(WithTable(mem, d, i, f, flags, t), d', v)
      == if d' == d && v / 1024 == i then t[v % 1024] else Translation(mem, d', v)
  {
    assert DirOk(mem, dirs, d');
    assert DirOk(mem, dirs, d);
  }

  /** A new table that differs from the translations that were only at page `v`. */
  lemma NewTableIsIsolated(mem: Memory, dirs: set<nat>, kernel: nat, d: nat, v: nat, f: nat, flags: nat, t: Table)
    requires Shaped(mem, dirs, kernel) && d in dirs && d in mem && v < PAGES && f !in mem && flags % 2 == 1
    requires forall j :: 0 <= j < 1024 && j != v % 1024 ==> t[j] == Translation(mem, d, 1024 * (v / 1024) + j)
    ensures Isolated(mem, WithTable(mem, d, v / 1024, f, flags, t), dirs, d, v)
    ensures Translation(WithTable(mem, d, v / 1024, f, flags, t), d, v) == t[v % 1024]
  {
    var mem' := WithTable(mem, d, v / 1024, f, flags, t);
    forall d', v' | d' in dirs && 0 <= v' < PAGES && !(d' == d && v' == v)
      ensures Translation(mem', d', v') == Translation(mem, d', v')
    {
      WithTableTranslation(mem, dirs, kernel, d, v / 1024, f, flags, t, d', v');
      assert v' == 1024 * (v' / 1024) + v' % 1024 && v == 1024 * (v / 1024) + v % 1024;
    }
    WithTableTranslation(mem, dirs, kernel, d, v / 1024, f, flags, t, d, v);
  }

  lemma IdentityKept(mem: Memory, mem': Memory, dirs: set<nat>, kernel: nat, ram: set<nat>, d: nat, v: nat)
    requires Identity(mem, kernel, ram) && Isolated(mem, mem', dirs, d, v) && kernel in dirs && d != kernel
    ensures Identity(mem', kernel, ram)
  {
    forall f | f in ram
      ensures OwnPage(mem', kernel, f)
    {
      assert OwnPage(mem, kernel, f);
    }
  }

  /** The table that is there, with the entry of page `v` replaced, in a frame of its own. */
  lemma CopiedTable(mem: Memory, dirs: set<nat>, kernel: nat, d: nat, v: nat, f: nat, e: Entry)
    requires Shaped(mem, dirs, kernel) && d in dirs && d in mem && v < PAGES && f !in mem && Present(mem[d][v / 1024])
    requires mem[d][v / 1024].frame in mem
    ensures
      var i, t := v / 1024, mem[mem[d][v / 1024].frame][v % 1024 := e];
      var mem' := WithTable(mem, d, i, f, mem[d][i].flags, t);
      && Isolated(mem, mem', dirs, d, v) && Translation(mem', d, v) == e
      && Shaped(mem', dirs, kernel) && Private(mem', dirs, d, i) && SettledKept(mem, mem', dirs, d)
  {
    var i := v / 1024;
    var t := mem[mem[d][i].frame][v % 1024 := e];
    forall j | 0 <= j < 1024 && j != v % 1024
      ensures t[j] == Translation(mem, d, 1024 * i + j)
    {
      assert (1024 * i + j) / 1024 == i && (1024 * i + j) % 1024 == j;
    }
    NewTableIsIsolated(mem, dirs, kernel, d, v, f, mem[d][i].flags, t);
    WithTableShape(mem, dirs, kernel, d, i, f, mem[d][i].flags, t);
    WithTableSettled(mem, dirs, kernel, d, i, f, mem[d][i].flags, t);
  }

  /** A table with one entry where there was none. */
  lemma FirstTable(mem: Memory, dirs: set<nat>, kernel: nat, d: nat, v: nat, f: nat, flags: nat, e: Entry)
    requires Shaped(mem, dirs, kernel) && d in dirs && d in mem && v < PAGES && f !in mem && !Present(mem[d][v / 1024])
    requires flags % 2 == 1
    ensures
      var mem' := WithTable(mem, d, v / 1024, f, flags, EmptyTable()[v % 1024 := e]);
      && Isolated(mem, mem', dirs, d, v) && Translation(mem', d, v) == e
      && Shaped(mem', dirs, kernel) && Settled(mem', dirs, d, v / 1024) && SettledKept(mem, mem', dirs, d)
  {
    var i, t := v / 1024, EmptyTable()[v % 1024 := e];
    forall j | 0 <= j < 1024 && j != v % 1024
      ensures t[j] == Translation(mem, d, 1024 * i + j)
    {
      assert (1024 * i + j) / 1024 == i;
    }
    NewTableIsIsolated(mem, dirs, kernel, d, v, f, flags, t);
    WithTableShape(mem, dirs, kernel, d, i, f, flags, t);
    WithTableSettled(mem, dirs, kernel, d, i, f, flags, t);
  }

  lemma IsolatedTwice(m0: Memory, m1: Memory, m2: Memory, dirs: set<nat>, d: nat, v: nat)
    requires Isolated(m0, m1, dirs, d, v) && Isolated(m1, m2, dirs, d, v)
    ensures Isolated(m0, m2, dirs, d, v)
  {
    forall d', v' | d' in dirs && 0 <= v' < PAGES && !(d' == d && v' == v)
      ensures Translation(m2, d', v') == Translation(m0, d', v')
    {
      assert Translation(m1, d', v') == Translation(m0, d', v');
    }
  }

  /** A copy of the kernel directory translates as the kernel does, and nothing else changes. */
  lemma Cloned(mem: Memory, dirs: set<nat>, kernel: nat, d: nat)
    requires Shaped(mem, dirs, kernel) && kernel in mem && d !in mem
    ensures Shaped(mem[d := mem[kernel]], dirs + {d}, kernel) && d !in dirs
    ensures forall d', v :: d' in dirs && 0 <= v < PAGES ==>
      Translation(mem[d := mem[kernel]], d', v) == Translation(mem, d', v)
    ensures forall v :: 0 <= v < PAGES ==> Translation(mem[d := mem[kernel]], d, v) == Translation(mem, kernel, v)
  {
    var mem' := mem[d := mem[kernel]];
    assert DirOk(mem, dirs, kernel);
    forall d' | d' in dirs
      ensures DirOk(mem', dirs + {d}, d') && d' != d
      ensures forall v :: 0 <= v < PAGES ==> Translation(mem', d', v) == Translation(mem, d', v)
    {
      assert DirOk(mem, dirs, d');
    }
  }

  // ---- the tables of one directory ----

  /** Entry `i` of directory `d` points to the table that the kernel has there. */
  predicate Lent(mem: Memory, kernel: nat, d: nat, i: nat)
    requires i < 1024 && d in mem && kernel in mem
  {
    Present(mem[d][i]) && Present(mem[kernel][i]) && mem[d][i].frame == mem[kernel][i].frame
  }

  /** Entry `i` of directory `d` points to another table than the kernel's. */
  predicate Own(mem: Memory, kernel: nat, d: nat, i: nat)
    requires i < 1024 && d in mem && kernel in mem
  {
    Present(mem[d][i]) && !Lent(mem, kernel, d, i)
  }

  /** A table of directory `d` that is not the kernel's is nobody else's either, and in a frame of memory. */
  ghost predicate OwnOk(mem: Memory, dirs: set<nat>, kernel: nat, ram: set<nat>, d: nat, i: nat)
    requires i < 1024
  {
    d in mem && kernel in mem &&
    (Own(mem, kernel, d, i) ==> Private(mem, dirs, d, i) && 0 < mem[d][i].frame && mem[d][i].frame in ram)
  }

  /** Every directory of a task can be given back, with all its tables that are not the kernel's. */
  ghost predicate Homes(mem: Memory, dirs: set<nat>, kernel: nat, ram: set<nat>) {
    && (forall d :: d in dirs && d != kernel ==> 0 < d && d in ram)
    && (forall d, i {:trigger OwnOk(mem, dirs, kernel, ram, d, i)} :: d in dirs && 0 <= i < 1024 ==>
          OwnOk(mem, dirs, kernel, ram, d, i))
  }

  /** The kernel's directory alone. */
  lemma HomesAlone(mem: Memory, kernel: nat, ram: set<nat>)
    requires kernel in mem
    ensures Homes(mem, {kernel}, kernel, ram)
  {
  }

  lemma HomesWrite(mem: Memory, dirs: set<nat>, kernel: nat, ram: set<nat>, t: nat, j: nat, e: Entry)
    requires Homes(mem, dirs, kernel, ram) && t in mem && t !in dirs && kernel in dirs && j < 1024
    ensures Homes(WriteShared(mem, t, j, e), dirs, kernel, ram)
  {
    var mem' := WriteShared(mem, t, j, e);
    forall d, i | d in dirs && 0 <= i < 1024
      ensures OwnOk(mem', dirs, kernel, ram, d, i)
    {
      assert OwnOk(mem, dirs, kernel, ram, d, i);
    }
  }

  lemma HomesTable(mem: Memory, dirs: set<nat>, kernel: nat, ram: set<nat>, d: nat, i: nat, f: nat, flags: nat,
                   t: Table)
    requires Shaped(mem, dirs, kernel) && Homes(mem, dirs, kernel, ram) && d in dirs && d in mem && i < 1024
    requires f !in mem && 0 < f && f in ram && flags % 2 == 1 && (d == kernel ==> !Present(mem[d][i]))
    ensures Homes(WithTable(mem, d, i, f, flags, t), dirs, kernel, ram)
  {
    var mem' := WithTable(mem, d, i, f, flags, t);
    WithTableShape(mem, dirs, kernel, d, i, f, flags, t);
    forall d', i' | d' in dirs && 0 <= i' < 1024
      ensures OwnOk(mem', dirs, kernel, ram, d', i')
    {
      assert DirOk(mem, dirs, d') && DirOk(mem, dirs, kernel) && OwnOk(mem, dirs, kernel, ram, d', i');
      if !(d' == d && i' == i) && Own(mem', kernel, d', i') {
        assert Own(mem, kernel, d', i');
        forall d2, i2 | d2 in dirs && d2 in mem' && 0 <= i2 < 1024 && Present(mem'[d2][i2]) && !(d2 == d' && i2 == i')
          ensures mem'[d2][i2].frame != mem'[d'][i'].frame
        {
          assert DirOk(mem, dirs, d2);
        }
      }
    }
  }

  lemma HomesClone(mem: Memory, dirs: set<nat>, kernel: nat, ram: set<nat>, d: nat)
    requires Shaped(mem, dirs, kernel) && Homes(mem, dirs, kernel, ram) && kernel in mem
    requires d !in mem && 0 < d && d in ram
    ensures Homes(mem[d := mem[kernel]], dirs + {d}, kernel, ram)
  {
    var mem' := mem[d := mem[kernel]];
    assert DirOk(mem, dirs, kernel);
    forall d', i | d' in dirs + {d} && 0 <= i < 1024
      ensures OwnOk(mem', dirs + {d}, kernel, ram, d', i)
    {
      if d' != d && d' != kernel {
        assert DirOk(mem, dirs, d') && OwnOk(mem, dirs, kernel, ram, d', i);
        if Own(mem', kernel, d', i) {
          forall d2, i2 | d2 in dirs + {d} && d2 in mem' && 0 <= i2 < 1024 && Present(mem'[d2][i2]) &&
                          !(d2 == d' && i2 == i)
            ensures mem'[d2][i2].frame != mem'[d'][i].frame
          {
            assert mem'[d2] == mem[if d2 == d then kernel else d2];
            KernelDiffers(mem, dirs, kernel, ram, d', i, i2);
          }
        }
      }
    }
  }

  /** A table of the directory's own is none of the kernel's, in any place. */
  lemma KernelDiffers(mem: Memory, dirs: set<nat>, kernel: nat, ram: set<nat>, d: nat, i: nat, k: nat)
    requires i < 1024 && k < 1024 && OwnOk(mem, dirs, kernel, ram, d, i) && kernel in dirs && d != kernel
    ensures Own(mem, kernel, d, i) && Present(mem[kernel][k]) ==> mem[kernel][k].frame != mem[d][i].frame
  {
  }

  /** The tables that the first `n` entries of directory `d` point to and that are not the kernel's. */
  ghost function OwnTables(mem: Memory, kernel: nat, d: nat, n: nat): set<nat>
    requires n <= 1024 && d in mem && kernel in mem
  {
    if n == 0 then {}
    else OwnTables(mem, kernel, d, n - 1) + if Own(mem, kernel, d, n - 1) then {mem[d][n - 1].frame} else {}
  }

  lemma {:induction false} FindOwnTable(mem: Memory, kernel: nat, d: nat, n: nat, f: nat) returns (i: nat)
    requires n <= 1024 && d in mem && kernel in mem && f in OwnTables(mem, kernel, d, n)
    ensures i < n && Own(mem, kernel, d, i) && mem[d][i].frame == f
  {
    if Own(mem, kernel, d, n - 1) && mem[d][n - 1].frame == f {
      i := n - 1;
    } else {
      i := FindOwnTable(mem, kernel, d, n - 1, f);
    }
  }
}
