/** The heap break of a user task (task.c): pages from a fixed base up to the break, each in a frame the task owns. */
module HeapBreak {
  import opened PageTables
  import opened Paging

  const PAGE := 4096
  const MAX_OWNED := 256
  const HEAP_BASE := 0x4000_0000
  const HEAP_MAX := 0x8000_0000
  const BASE_PAGE := HEAP_BASE / PAGE
  const USER_FLAGS := 7

  datatype Growth = Grown | NoMemory | TooMany

  function PageUp(x: nat): (p: nat)
    ensures PAGE * p >= x && PAGE * p < x + PAGE
  {
    (x + (PAGE - 1)) / PAGE
  }

  /** Owned frames are in use, are memory, hold no tables, and are listed once. */
  ghost predicate OwnedOk(owned: multiset<nat>, mem: Memory, ram: set<nat>, used: seq<bool>) {
    forall f {:trigger FrameOk(owned, mem, ram, used, f)} :: f in owned ==> FrameOk(owned, mem, ram, used, f)
  }

  ghost predicate FrameOk(owned: multiset<nat>, mem: Memory, ram: set<nat>, used: seq<bool>, f: nat) {
    owned[f] == 1 && 0 < f < |used| && used[f] && f in ram && f !in mem
  }

  /** Pages from the base to before `top`, without those from `lo` to before `hi`. */
  predicate InHeap(p: int, lo: nat, hi: nat, top: nat) {
    BASE_PAGE <= p < top && !(lo <= p < hi)
  }

  /** Each of these pages is mapped to an owned frame of its own. */
  ghost predicate HeapBut(mem: Memory, d: nat, owned: multiset<nat>, lo: nat, hi: nat, top: nat) {
    && top <= PAGES
    && (forall p {:trigger PageOk(mem, d, owned, p)} :: InHeap(p, lo, hi, top) ==> PageOk(mem, d, owned, p))
    && (forall p, q {:trigger Differ(mem, d, p, q)} ::
        InHeap(p, lo, hi, top) && InHeap(q, lo, hi, top) && p < q ==> Differ(mem, d, p, q))
  }

  /** Each page from the base to before `top` is mapped to an owned frame of its own. */
  ghost predicate HeapOk(mem: Memory, d: nat, owned: multiset<nat>, top: nat) {
    && top <= PAGES
    && (forall p {:trigger PageOk(mem, d, owned, p)} :: BASE_PAGE <= p < top ==> PageOk(mem, d, owned, p))
    && (forall p, q {:trigger Differ(mem, d, p, q)} :: BASE_PAGE <= p < q < top ==> Differ(mem, d, p, q))
  }

  ghost predicate Differ(mem: Memory, d: nat, p: nat, q: nat)
    requires p < PAGES && q < PAGES
  {
    Translation(mem, d, p).frame != Translation(mem, d, q).frame
  }

  ghost predicate PageOk(mem: Memory, d: nat, owned: multiset<nat>, p: nat)
    requires p < PAGES
  {
    ForUsers(Translation(mem, d, p)) && Translation(mem, d, p).frame in owned
  }

  /** No translation changes but those of the pages `lo` to before `hi` of directory `d`. */
  ghost predicate Confined(mem: Memory, mem': Memory, dirs: set<nat>, d: nat, lo: nat, hi: nat) {
    forall d', v {:trigger Same(mem, mem', d', v)} ::
      d' in dirs && 0 <= v < PAGES && !(d' == d && lo <= v < hi) ==> Same(mem, mem', d', v)
  }

  ghost predicate Same(mem: Memory, mem': Memory, d: nat, v: nat)
    requires v < PAGES
  {
    Translation(mem', d, v) == Translation(mem, d, v)
  }

  lemma ConfinedStep(m0: Memory, m1: Memory, m2: Memory, dirs: set<nat>, d: nat, lo: nat, hi: nat, v: nat)
    requires Confined(m0, m1, dirs, d, lo, hi) && Isolated(m1, m2, dirs, d, v)
    ensures Confined(m0, m2, dirs, d, if v < lo then v else lo, if v >= hi then v + 1 else hi)
  {
    forall d', w | d' in dirs && 0 <= w < PAGES
        && !(d' == d && (if v < lo then v else lo) <= w < (if v >= hi then v + 1 else hi))
      ensures Same(m0, m2, d', w)
    {
      assert Same(m0, m1, d', w);
    }
  }

  /** Frame `f` written for page `v` into the table that directory `d` has for it. */
  function Leak(m: Memory, d: nat, v: nat, f: nat): Memory
    requires v < PAGES
  {
    if d in m && Present(m[d][v / 1024]) && m[d][v / 1024].frame in m
    then WriteShared(m, m[d][v / 1024].frame, v % 1024, Entry(f, USER_FLAGS)) else m
  }

  /** Page `w` of directory `d` is translated through entry `j` of table `t`. */
  ghost predicate Through(m: Memory, d: nat, w: nat, t: nat, j: nat)
    requires w < PAGES
  {
    d in m && Present(m[d][w / 1024]) && m[d][w / 1024].frame == t && w % 1024 == j
  }

  /** A write for page `v` into the table that is there reaches no memory of the kernel's and no other page of `d`. */
  ghost predicate Harmless(m: Memory, kernel: nat, ram: set<nat>, d: nat, v: nat)
    requires v < PAGES
  {
    && d in m && Present(m[d][v / 1024]) && m[d][v / 1024].frame in m
    && (forall g {:trigger Through(m, kernel, g, m[d][v / 1024].frame, v % 1024)} :: g in ram && g < PAGES ==>
          !Through(m, kernel, g, m[d][v / 1024].frame, v % 1024))
    && (forall p {:trigger Through(m, d, p, m[d][v / 1024].frame, v % 1024)} :: 0 <= p < PAGES && p != v ==>
          !Through(m, d, p, m[d][v / 1024].frame, v % 1024))
  }

  lemma LeakTranslation(m: Memory, dirs: set<nat>, kernel: nat, d: nat, v: nat, f: nat, d': nat, w: nat)
    requires Shaped(m, dirs, kernel) && d in dirs && d' in dirs && v < PAGES && w < PAGES
    requires d in m && Present(m[d][v / 1024])
    ensures m[d][v / 1024].frame in m
    ensures Translation(Leak(m, d, v, f), d', w) ==
      if Through(m, d', w, m[d][v / 1024].frame, v % 1024) then Entry(f, USER_FLAGS) else Translation(m, d', w)
  {
    assert DirOk(m, dirs, d) && DirOk(m, dirs, d');
    WriteSharedTranslation(m, dirs, kernel, m[d][v / 1024].frame, v % 1024, Entry(f, USER_FLAGS), d', w);
  }

  /** Such a write leaves the kernel's map of memory and the other pages of the task alone. */
  lemma LeakIsHarmless(m: Memory, dirs: set<nat>, kernel: nat, ram: set<nat>, d: nat, v: nat, f: nat)
    requires Shaped(m, dirs, kernel) && d in dirs && v < PAGES && Identity(m, kernel, ram)
    requires Harmless(m, kernel, ram, d, v)
    ensures Identity(Leak(m, d, v, f), kernel, ram) && Isolated(m, Leak(m, d, v, f), {d}, d, v)
    ensures Translation(Leak(m, d, v, f), d, v) == Entry(f, USER_FLAGS)
  {
    var m' := Leak(m, d, v, f);
    forall g | g in ram
      ensures OwnPage(m', kernel, g)
    {
      assert OwnPage(m, kernel, g);
      LeakTranslation(m, dirs, kernel, d, v, f, kernel, g);
    }
    forall w | 0 <= w < PAGES
      ensures Translation(m', d, w) == if w == v then Entry(f, USER_FLAGS) else Translation(m, d, w)
    {
      LeakTranslation(m, dirs, kernel, d, v, f, d, w);
      assert w != v ==> !Through(m, d, w, m[d][v / 1024].frame, v % 1024);
    }
  }

  /** Entry `k` of directory `d` is as in `m0`, or is for pages from `lo` to before `v` and points to a newer table. */
  ghost predicate RowSince(m0: Memory, m: Memory, d: nat, lo: nat, v: nat, k: nat)
    requires k < 1024
  {
    && d in m0 && d in m
    && (m[d][k] == m0[d][k] || (lo < v && lo / 1024 <= k && 1024 * k < v && m[d][k].frame !in m0))
  }

  /** What a growth from `lo` to before `v` has changed of the directories. */
  ghost predicate RowsSince(m0: Memory, m: Memory, dirs: set<nat>, d: nat, lo: nat, v: nat) {
    && (forall g :: g in m0 ==> g in m)
    && (forall d' {:trigger RowKept(m0, m, d')} :: d' in dirs && d' != d ==> RowKept(m0, m, d'))
    && (forall k {:trigger RowSince(m0, m, d, lo, v, k)} :: 0 <= k < 1024 ==> RowSince(m0, m, d, lo, v, k))
  }

  lemma RowsSinceStart(m: Memory, dirs: set<nat>, kernel: nat, d: nat, lo: nat)
    requires Shaped(m, dirs, kernel) && d in dirs
    ensures RowsSince(m, m, dirs, d, lo, lo)
  {
    assert forall d' :: d' in dirs ==> DirOk(m, dirs, d');
  }

  lemma RowsSinceStep(m0: Memory, m: Memory, m': Memory, dirs: set<nat>, d: nat, lo: nat, v: nat, v': nat)
    requires lo <= v < PAGES && RowsSince(m0, m, dirs, d, lo, v) && RowsKept(m, m', dirs, d, v / 1024)
    requires v' == v + 1 && forall g :: g in m ==> g in m'
    ensures RowsSince(m0, m', dirs, d, lo, v')
  {
    forall d' | d' in dirs && d' != d
      ensures RowKept(m0, m', d')
    {
      assert RowKept(m0, m, d') && RowKept(m, m', d');
    }
    forall k | 0 <= k < 1024
      ensures RowSince(m0, m', d, lo, v', k)
    {
      assert RowSince(m0, m, d, lo, v, k) && (k != v / 1024 ==> EntryKept(m, m', d, k));
    }
  }

  /** The page that comes next has the entry that it had, if it is the first one or the first one behind its entry. */
  lemma SameEntry(m0: Memory, m: Memory, dirs: set<nat>, d: nat, lo: nat, v: nat)
    requires lo <= v < PAGES && RowsSince(m0, m, dirs, d, lo, v) && (v == lo || v % 1024 == 0)
    ensures EntryKept(m0, m, d, v / 1024)
  {
    assert RowSince(m0, m, d, lo, v, v / 1024);
  }

  /** What is harmless at first is so when the growth has come to the page. */
  lemma StillHarmless(m0: Memory, m: Memory, dirs: set<nat>, kernel: nat, ram: set<nat>, d: nat, lo: nat, v: nat)
    requires lo <= v < PAGES && RowsSince(m0, m, dirs, d, lo, v) && (v == lo || v % 1024 == 0)
    requires kernel in dirs && d != kernel && Harmless(m0, kernel, ram, d, v)
    ensures Harmless(m, kernel, ram, d, v)
  {
    SameEntry(m0, m, dirs, d, lo, v);
    var t, j := m0[d][v / 1024].frame, v % 1024;
    assert RowKept(m0, m, kernel);
    forall g | g in ram && g < PAGES
      ensures !Through(m, kernel, g, t, j)
    {
      assert !Through(m0, kernel, g, t, j);
    }
    forall p | 0 <= p < PAGES && p != v
      ensures !Through(m, d, p, t, j)
    {
      assert RowSince(m0, m, d, lo, v, p / 1024) && !Through(m0, d, p, t, j);
    }
  }

  /** The table is shared with another directory, and still is. */
  lemma StillShared(m0: Memory, m: Memory, dirs: set<nat>, kernel: nat, ram: set<nat>, d: nat, lo: nat, v: nat)
    requires lo <= v < PAGES && RowsSince(m0, m, dirs, d, lo, v) && (v == lo || v % 1024 == 0)
    requires Harmless(m0, kernel, ram, d, v) && !Settled(m0, dirs, d, v / 1024)
    ensures !Settled(m, dirs, d, v / 1024)
  {
    var i, j := v / 1024, v % 1024;
    var t := m0[d][i].frame;
    SameEntry(m0, m, dirs, d, lo, v);
    var d', i' :|
      && d' in dirs && d' in m0 && 0 <= i' < 1024 && Present(m0[d'][i']) && !(d' == d && i' == i)
      && m0[d'][i'].frame == t;
    if d' == d {
      var p := 1024 * i' + j;
      assert p / 1024 == i' && p % 1024 == j;
      assert Through(m0, d, p, t, j);
    } else {
      assert RowKept(m0, m, d');
    }
  }

  /** A growth whose next page is written into a shared table is a growth since memory in which that was so at first. */
  lemma LeakStep(m0: Memory, owned0: multiset<nat>, m: Memory, owned: multiset<nat>, owned': multiset<nat>,
                 dirs: set<nat>, kernel: nat, ram: set<nat>, d: nat, lo: nat, v: nat, f: nat)
    requires Growing(m0, owned0, m, owned, dirs, d, lo, v) && RowsSince(m0, m, dirs, d, lo, v) && v < PAGES
    requires Shaped(m0, dirs, kernel) && Shaped(m, dirs, kernel) && Identity(m, kernel, ram) && d in dirs && d != kernel
    requires (v == lo || v % 1024 == 0) && Harmless(m0, kernel, ram, d, v)
    requires owned' == owned + multiset{f} && HeapOk(Leak(m, d, v, f), d, owned', v + 1)
    ensures Growing(Leak(m0, d, v, f), owned0, Leak(m, d, v, f), owned', dirs, d, lo, v + 1)
  {
    StillHarmless(m0, m, dirs, kernel, ram, d, lo, v);
    LeakIsHarmless(m, dirs, kernel, ram, d, v, f);
    OneMoreFrame(m, Leak(m, d, v, f), d, lo, v, owned0, owned, owned');
    forall d', w | d' in dirs && 0 <= w < PAGES && !(d' == d && lo <= w < v + 1)
      ensures Same(Leak(m0, d, v, f), Leak(m, d, v, f), d', w)
    {
      LeakSame(m0, m, dirs, kernel, ram, d, lo, v, f, d', w);
    }
  }

  lemma LeakSame(m0: Memory, m: Memory, dirs: set<nat>, kernel: nat, ram: set<nat>, d: nat, lo: nat, v: nat, f: nat,
                 d': nat, w: nat)
    requires lo <= v < PAGES && RowsSince(m0, m, dirs, d, lo, v) && Confined(m0, m, dirs, d, lo, v)
    requires Shaped(m0, dirs, kernel) && Shaped(m, dirs, kernel) && d in dirs && d' in dirs && w < PAGES
    requires (v == lo || v % 1024 == 0) && Harmless(m0, kernel, ram, d, v) && Harmless(m, kernel, ram, d, v)
    requires !(d' == d && lo <= w < v + 1)
    ensures Same(Leak(m0, d, v, f), Leak(m, d, v, f), d', w)
  {
    SameEntry(m0, m, dirs, d, lo, v);
    LeakTranslation(m0, dirs, kernel, d, v, f, d', w);
    LeakTranslation(m, dirs, kernel, d, v, f, d', w);
    var t, j := m0[d][v / 1024].frame, v % 1024;
    assert Same(m0, m, d', w);
    if d' == d {
      assert !Through(m0, d, w, t, j) && !Through(m, d, w, t, j);
    } else {
      assert RowKept(m0, m, d');
    }
  }

  /**
   What becomes of page `v` when no frame is left for its table: the frame `f` is written into the table that is there,
   for all that share it, unless that says so already; without a table the page is not mapped.
   */
  ghost predicate Misplaced(m: Memory, m': Memory, dirs: set<nat>, d: nat, v: nat, f: nat)
    requires v < PAGES
  {
    d in m &&
    if Present(m[d][v / 1024]) then
      && m' == Leak(m, d, v, f) && Translation(m', d, v) == Entry(f, USER_FLAGS)
      && (Isolated(m, m', dirs, d, v) <==> Translation(m, d, v) == Entry(f, USER_FLAGS))
    else m' == m && Translation(m', d, v) == NoEntry()
  }

  lemma Widened(mem: Memory, mem': Memory, dirs: set<nat>, d: nat, lo: nat, hi: nat, hi': nat)
    requires (mem' == mem || Confined(mem, mem', dirs, d, lo, hi)) && hi <= hi'
    ensures Confined(mem, mem', dirs, d, lo, hi')
  {
  }

  /** One more page at the top. */
  lemma HeapGrows(m: Memory, m': Memory, dirs: set<nat>, d: nat, owned: multiset<nat>, top: nat, f: nat)
    requires HeapOk(m, d, owned, top) && BASE_PAGE <= top < PAGES && d in dirs && f !in owned
    requires Isolated(m, m', dirs, d, top) && Translation(m', d, top) == Entry(f, USER_FLAGS)
    ensures HeapOk(m', d, owned + multiset{f}, top + 1)
  {
    forall p | BASE_PAGE <= p < top
      ensures Translation(m', d, p) == Translation(m, d, p) && PageOk(m', d, owned + multiset{f}, p)
      ensures Translation(m', d, p).frame != f
    {
      assert PageOk(m, d, owned, p);
    }
    forall p, q | BASE_PAGE <= p < q < top + 1
      ensures Differ(m', d, p, q)
    {
      assert q < top ==> Differ(m, d, p, q);
    }
  }

  /** The frame of page `hi` goes; the pages outside the hole keep theirs. */
  lemma HeapLoses(m: Memory, m': Memory, dirs: set<nat>, d: nat, owned: multiset<nat>, lo: nat, hi: nat, top: nat)
    requires BASE_PAGE <= lo <= hi < top && d in dirs && HeapBut(m, d, owned, lo, hi, top)
    requires Isolated(m, m', dirs, d, hi)
    ensures HeapBut(m', d, owned - multiset{Translation(m, d, hi).frame}, lo, hi + 1, top)
  {
    var f := Translation(m, d, hi).frame;
    assert InHeap(hi, lo, hi, top);
    forall p | InHeap(p, lo, hi + 1, top)
      ensures Translation(m', d, p) == Translation(m, d, p) && PageOk(m', d, owned - multiset{f}, p)
      ensures InHeap(p, lo, hi, top)
    {
      assert InHeap(p, lo, hi, top) && PageOk(m, d, owned, p);
      assert Differ(m, d, p, hi) || Differ(m, d, hi, p);
    }
    forall p, q | InHeap(p, lo, hi + 1, top) && InHeap(q, lo, hi + 1, top) && p < q
      ensures Differ(m', d, p, q)
    {
      assert Differ(m, d, p, q);
    }
  }

  lemma HoleAtTop(m: Memory, d: nat, owned: multiset<nat>, lo: nat, top: nat)
    requires lo <= top && HeapBut(m, d, owned, lo, top, top)
    ensures HeapOk(m, d, owned, lo)
  {
    forall p | BASE_PAGE <= p < lo
      ensures InHeap(p, lo, top, top)
    {
    }
  }

  lemma NoHole(m0: Memory, owned: multiset<nat>, dirs: set<nat>, d: nat, lo: nat, top: nat, clean: bool)
    requires lo <= top && HeapOk(m0, d, owned, top)
    ensures Dropping(m0, owned, m0, owned, dirs, d, lo, lo, top, clean)
  {
    forall p | InHeap(p, lo, lo, top)
      ensures BASE_PAGE <= p < top
    {
    }
  }

  /** Owned frames stay owned when others come to hold tables and one of them is given back. */
  lemma OwnedShrinks(owned: multiset<nat>, mem: Memory, ram: set<nat>, used: seq<bool>, mem': Memory, used1: seq<bool>,
                     used2: seq<bool>, p: nat)
    requires OwnedOk(owned, mem, ram, used) && Machine.OnlyFresh(mem, used, mem') && Machine.OnlyTaken(used, used1)
    requires p in owned && p < |used1| && used2 == used1[p := false]
    ensures OwnedOk(owned - multiset{p}, mem', ram, used2)
  {
    forall f | f in owned - multiset{p}
      ensures FrameOk(owned - multiset{p}, mem', ram, used2, f)
    {
      assert FrameOk(owned, mem, ram, used, f) && FrameOk(owned, mem, ram, used, p);
    }
  }

  lemma OwnedGrows(owned: multiset<nat>, mem: Memory, ram: set<nat>, used: seq<bool>, mem': Memory, used': seq<bool>,
                   p: nat)
    requires OwnedOk(owned, mem, ram, used) && 0 < p < |used| && !used[p] && p in ram
    requires Machine.OnlyFresh(mem, used[p := true], mem') && Machine.OnlyTaken(used[p := true], used') && p !in mem
    ensures p !in owned && OwnedOk(owned + multiset{p}, mem', ram, used')
  {
    assert p in owned ==> FrameOk(owned, mem, ram, used, p);
    forall f | f in owned + multiset{p}
      ensures FrameOk(owned + multiset{p}, mem', ram, used', f)
    {
      assert f in owned ==> FrameOk(owned, mem, ram, used, f);
    }
  }

  lemma OwnedOnce(owned: multiset<nat>, mem: Memory, ram: set<nat>, used: seq<bool>)
    requires OwnedOk(owned, mem, ram, used)
    ensures forall f :: f in owned ==> owned[f] == 1
  {
    forall f | f in owned
      ensures owned[f] == 1
    {
      assert FrameOk(owned, mem, ram, used, f);
    }
  }

  lemma Untracked(s: seq<nat>, i: nat)
    requires i < |s|
    ensures multiset(s[i := s[|s| - 1]][..|s| - 1]) == multiset(s) - multiset{s[i]}
  {
    var n := |s| - 1;
    assert s == s[..n] + [s[n]];
    if i < n {
      var r := s[..n];
      assert s[i := s[n]][..n] == r[i := s[n]];
      assert multiset(r[i := s[n]]) == multiset(r) - multiset{r[i]} + multiset{s[n]};
    } else {
      assert s[i := s[n]][..n] == s[..n];
    }
  }

  /** The frames of the pages `lo` to before `hi`. */
  ghost function Frames(mem: Memory, d: nat, lo: nat, hi: nat): multiset<nat>
    requires hi <= PAGES
  {
    if hi <= lo then multiset{} else Frames(mem, d, lo, hi - 1) + multiset{Translation(mem, d, hi - 1).frame}
  }

  /** The frames of the pages `lo` to before `hi` are what `whole` has more than `part`. */
  ghost predicate Accounts(mem: Memory, d: nat, lo: nat, hi: nat, part: multiset<nat>, whole: multiset<nat>)
    requires hi <= PAGES
  {
    if hi <= lo then part == whole
    else Accounts(mem, d, lo, hi - 1, part + multiset{Translation(mem, d, hi - 1).frame}, whole)
  }

  lemma Regrouped(a: multiset<nat>, b: multiset<nat>, c: multiset<nat>)
    ensures a + b + c == a + (c + b)
  {
  }

  lemma {:induction false} AccountsExactly(mem: Memory, d: nat, lo: nat, hi: nat, part: multiset<nat>,
                                           whole: multiset<nat>)
    requires hi <= PAGES
    ensures Accounts(mem, d, lo, hi, part, whole) <==> part + Frames(mem, d, lo, hi) == whole
  {
    if lo < hi {
      var f := multiset{Translation(mem, d, hi - 1).frame};
      AccountsExactly(mem, d, lo, hi - 1, part + f, whole);
      Regrouped(part, f, Frames(mem, d, lo, hi - 1));
    }
  }

  lemma {:induction false} FramesKept(mem: Memory, mem': Memory, d: nat, lo: nat, hi: nat)
    requires hi <= PAGES && forall v :: lo <= v < hi ==> Translation(mem', d, v) == Translation(mem, d, v)
    ensures Frames(mem', d, lo, hi) == Frames(mem, d, lo, hi)
  {
    if lo < hi {
      FramesKept(mem, mem', d, lo, hi - 1);
      var f := Translation(mem, d, hi - 1).frame;
      assert Frames(mem', d, lo, hi) == Frames(mem', d, lo, hi - 1) + multiset{f};
    }
  }

  lemma Cancel(a: multiset<nat>, b: multiset<nat>, c: multiset<nat>)
    requires a + c == b + c
    ensures a == b
  {
    forall x
      ensures a[x] == b[x]
    {
      assert (a + c)[x] == a[x] + c[x] && (b + c)[x] == b[x] + c[x];
    }
  }

  /**
   The pages `lo` to before `v` are dropped. When no frame was free at first, which `clean` denies, page `lo` is still
   mapped as it was; all others are unmapped.
   */
  ghost predicate Dropping(m0: Memory, owned0: multiset<nat>, mem: Memory, owned: multiset<nat>, dirs: set<nat>, d: nat,
                           lo: nat, v: nat, hi: nat, clean: bool) {
    && lo <= v <= hi <= PAGES && HeapBut(mem, d, owned, lo, v, hi) && Confined(m0, mem, dirs, d, lo, v)
    && Accounts(m0, d, lo, v, owned, owned0)
    && Empty(mem, d, if clean then lo else lo + 1, v)
    && (!clean && lo < v ==> Same(m0, mem, d, lo))
  }

  /** The pages `lo` to before `hi` are not mapped. */
  ghost predicate Empty(mem: Memory, d: nat, lo: nat, hi: nat)
    requires hi <= PAGES
  {
    forall w {:trigger Blank(mem, d, w)} :: lo <= w < hi ==> Blank(mem, d, w)
  }

  ghost predicate Blank(mem: Memory, d: nat, v: nat)
    requires v < PAGES
  {
    Translation(mem, d, v) == NoEntry()
  }

  /** What dropping page `v` does. */
  ghost predicate Dropped(m: Memory, owned: multiset<nat>, m': Memory, owned': multiset<nat>, dirs: set<nat>, d: nat,
                          lo: nat, v: nat, top: nat, clean: bool)
    requires v < PAGES
  {
    && HeapBut(m', d, owned', lo, v + 1, top) && Isolated(m, m', dirs, d, v)
    && owned' + multiset{Translation(m, d, v).frame} == owned
    && if clean then Translation(m', d, v) == NoEntry() else m' == m
  }

  /** Page `v` is mapped to a frame that the task does not own. */
  ghost predicate Stale(mem: Memory, d: nat, owned: multiset<nat>, v: nat) {
    v < PAGES && Present(Translation(mem, d, v)) && Translation(mem, d, v).frame !in owned
  }

  /**
   The pages `lo` to before `hi` are unmapped, but for the first one if `stale`: its frame is gone, its mapping not.
   */
  ghost predicate Emptied(mem: Memory, d: nat, owned: multiset<nat>, lo: nat, hi: nat, stale: bool)
    requires hi <= PAGES
  {
    if stale && lo < hi then Stale(mem, d, owned, lo) && Empty(mem, d, lo + 1, hi) else Empty(mem, d, lo, hi)
  }

  lemma {:induction false} FrameAmong(mem: Memory, d: nat, lo: nat, hi: nat, v: nat)
    requires lo <= v < hi <= PAGES
    ensures Translation(mem, d, v).frame in Frames(mem, d, lo, hi)
  {
    if v < hi - 1 {
      FrameAmong(mem, d, lo, hi - 1, v);
    }
  }

  lemma DroppingStep(m0: Memory, owned0: multiset<nat>, m: Memory, owned: multiset<nat>,
                     m': Memory, owned': multiset<nat>, dirs: set<nat>, d: nat, lo: nat, v: nat, hi: nat, clean: bool)
    requires Dropping(m0, owned0, m, owned, dirs, d, lo, v, hi, clean) && v < hi && d in dirs
    requires Dropped(m, owned, m', owned', dirs, d, lo, v, hi, clean || lo < v)
    ensures Dropping(m0, owned0, m', owned', dirs, d, lo, v + 1, hi, clean)
  {
    ConfinedStep(m0, m, m', dirs, d, lo, v, v);
    assert Same(m0, m, d, v);
    assert owned' + multiset{Translation(m0, d, v).frame} == owned;
    forall w | (if clean then lo else lo + 1) <= w < v + 1
      ensures Blank(m', d, w)
    {
      assert w != v ==> Blank(m, d, w) && Translation(m', d, w) == Translation(m, d, w);
    }
  }

  /** The heap has grown from `lo` to `v` by frames that came to be owned. */
  ghost predicate Growing(m0: Memory, owned0: multiset<nat>, mem: Memory, owned: multiset<nat>, dirs: set<nat>, d: nat,
                          lo: nat, v: nat) {
    && lo <= v <= PAGES && HeapOk(mem, d, owned, v) && Confined(m0, mem, dirs, d, lo, v)
    && Accounts(mem, d, lo, v, owned0, owned)
  }

  lemma NotGrown(m: Memory, owned: multiset<nat>, dirs: set<nat>, d: nat, lo: nat)
    requires HeapOk(m, d, owned, lo)
    ensures Growing(m, owned, m, owned, dirs, d, lo, lo)
  {
  }

  lemma OneMoreFrame(m: Memory, m': Memory, d: nat, lo: nat, v: nat, owned0: multiset<nat>, owned: multiset<nat>,
                     owned': multiset<nat>)
    requires lo <= v < PAGES && Accounts(m, d, lo, v, owned0, owned)
    requires forall w :: lo <= w < v ==> Translation(m', d, w) == Translation(m, d, w)
    requires owned' == owned + multiset{Translation(m', d, v).frame}
    ensures Accounts(m', d, lo, v + 1, owned0, owned')
  {
    FramesKept(m, m', d, lo, v);
    AccountsExactly(m, d, lo, v, owned0, owned);
    AccountsExactly(m', d, lo, v + 1, owned0, owned');
    Regrouped(owned0, multiset{Translation(m', d, v).frame}, Frames(m', d, lo, v));
    Regrouped(owned0, Frames(m', d, lo, v), multiset{Translation(m', d, v).frame});
  }

  lemma GrowingStep(m0: Memory, owned0: multiset<nat>, m: Memory, owned: multiset<nat>, m': Memory,
                    owned': multiset<nat>,
                    dirs: set<nat>, d: nat, lo: nat, v: nat)
    requires Growing(m0, owned0, m, owned, dirs, d, lo, v) && v < PAGES && d in dirs && Isolated(m, m', dirs, d, v)
    requires owned' == owned + multiset{Translation(m', d, v).frame} && HeapOk(m', d, owned', v + 1)
    ensures Growing(m0, owned0, m', owned', dirs, d, lo, v + 1)
  {
    ConfinedStep(m0, m, m', dirs, d, lo, v, v);
    OneMoreFrame(m, m', d, lo, v, owned0, owned, owned');
  }

  /** Growth undone: the frames and the translations below are as before. */
  lemma RolledBack(m0: Memory, owned0: multiset<nat>, m: Memory, owned: multiset<nat>, m': Memory,
                   owned': multiset<nat>,
                   dirs: set<nat>, d: nat, lo: nat, v: nat)
    requires Growing(m0, owned0, m, owned, dirs, d, lo, v) && Confined(m, m', dirs, d, lo, v)
    requires owned' + Frames(m, d, lo, v) == owned
    ensures owned' == owned0 && Confined(m0, m', dirs, d, lo, v)
  {
    AccountsExactly(m, d, lo, v, owned0, owned);
    Cancel(owned', owned0, Frames(m, d, lo, v));
    forall d', w | d' in dirs && 0 <= w < PAGES && !(d' == d && lo <= w < v)
      ensures Same(m0, m', d', w)
    {
      assert Same(m0, m, d', w) && Same(m, m', d', w);
    }
  }

  lemma DroppingDone(m0: Memory, owned0: multiset<nat>, m: Memory, owned: multiset<nat>, dirs: set<nat>, d: nat,
                     lo: nat, hi: nat, clean: bool)
    requires Dropping(m0, owned0, m, owned, dirs, d, lo, hi, hi, clean) && BASE_PAGE <= lo && HeapOk(m0, d, owned0, hi)
    requires forall f :: f in owned0 ==> owned0[f] == 1
    ensures HeapOk(m, d, owned, lo) && Confined(m0, m, dirs, d, lo, hi)
    ensures owned + Frames(m0, d, lo, hi) == owned0 && Emptied(m, d, owned, lo, hi, !clean)
  {
    HoleAtTop(m, d, owned, lo, hi);
    AccountsExactly(m0, d, lo, hi, owned, owned0);
    if lo < hi {
      assert PageOk(m0, d, owned0, lo);
      FrameAmong(m0, d, lo, hi, lo);
    }
  }

  // ---- frames that are none of the task's ----

  /** Frame `g` is in use, and not by a page of the task. */
  ghost predicate Foreign(used: seq<bool>, owned: multiset<nat>, g: nat) {
    g < |used| && used[g] && g !in owned
  }

  ghost predicate Spared(mem: Memory, used: seq<bool>, owned: multiset<nat>, mem': Memory, used': seq<bool>,
                         owned': multiset<nat>, g: nat) {
    Foreign(used, owned, g) ==> Foreign(used', owned', g) && (g in mem' ==> g in mem)
  }

  /** Frames in use that are none of the task's stay so, and none of them comes to hold a table. */
  ghost predicate Spares(mem: Memory, used: seq<bool>, owned: multiset<nat>, mem': Memory, used': seq<bool>,
                         owned': multiset<nat>) {
    && |used'| == |used|
    && forall g: nat {:trigger Spared(mem, used, owned, mem', used', owned', g)} ::
        Spared(mem, used, owned, mem', used', owned', g)
  }

  lemma SparesTwice(m0: Memory, u0: seq<bool>, o0: multiset<nat>, m1: Memory, u1: seq<bool>, o1: multiset<nat>,
                    m2: Memory, u2: seq<bool>, o2: multiset<nat>)
    requires Spares(m0, u0, o0, m1, u1, o1) && Spares(m1, u1, o1, m2, u2, o2)
    ensures Spares(m0, u0, o0, m2, u2, o2)
  {
    forall g: nat
      ensures Spared(m0, u0, o0, m2, u2, o2, g)
    {
      assert Spared(m0, u0, o0, m1, u1, o1, g) && Spared(m1, u1, o1, m2, u2, o2, g);
    }
  }

  lemma DropSpares(mem: Memory, used: seq<bool>, owned: multiset<nat>, mem': Memory, used1: seq<bool>, p: nat)
    requires Machine.OnlyFresh(mem, used, mem') && Machine.OnlyTaken(used, used1) && p in owned && p < |used1|
    ensures Spares(mem, used, owned, mem', used1[p := false], owned - multiset{p})
  {
    var used', owned' := used1[p := false], owned - multiset{p};
    forall g: nat
      ensures Spared(mem, used, owned, mem', used', owned', g)
    {
    }
  }

  lemma GrowSpares(mem: Memory, used: seq<bool>, owned: multiset<nat>, mem': Memory, used': seq<bool>, f: nat)
    requires f < |used| && !used[f]
    requires Machine.OnlyFresh(mem, used[f := true], mem') && Machine.OnlyTaken(used[f := true], used')
    ensures Spares(mem, used, owned, mem', used', owned + multiset{f})
  {
    forall g: nat
      ensures Spared(mem, used, owned, mem', used', owned + multiset{f}, g)
    {
    }
  }

  /** Another task's frames and heap are as before. */
  lemma OtherKept(mem: Memory, used: seq<bool>, owned: multiset<nat>, mem': Memory, used': seq<bool>,
                  owned': multiset<nat>, dirs: set<nat>, d: nat, lo: nat, hi: nat, ram: set<nat>,
                  other: multiset<nat>, d': nat, top: nat)
    requires Spares(mem, used, owned, mem', used', owned') && Confined(mem, mem', dirs, d, lo, hi)
    requires d' in dirs && d' != d
    requires OwnedOk(other, mem, ram, used) && HeapOk(mem, d', other, top) && forall f :: f in other ==> f !in owned
    ensures OwnedOk(other, mem', ram, used') && HeapOk(mem', d', other, top)
  {
    forall f | f in other
      ensures FrameOk(other, mem', ram, used', f)
    {
      assert FrameOk(other, mem, ram, used, f) && Spared(mem, used, owned, mem', used', owned', f);
    }
    forall p | BASE_PAGE <= p < top
      ensures Same(mem, mem', d', p) && PageOk(mem', d', other, p)
    {
      assert Same(mem, mem', d', p) && PageOk(mem, d', other, p);
    }
    forall p, q | BASE_PAGE <= p < q < top
      ensures Differ(mem', d', p, q)
    {
      assert Differ(mem, d', p, q) && Same(mem, mem', d', p) && Same(mem, mem', d', q);
    }
  }

  /** No heap page of directory `d'` is translated through the table entry that directory `d` has for page `v`. */
  ghost predicate Beside(m: Memory, d: nat, v: nat, d': nat, top: nat)
    requires v < PAGES && top <= PAGES
  {
    d in m && forall p {:trigger Through(m, d', p, m[d][v / 1024].frame, v % 1024)} :: BASE_PAGE <= p < top ==>
      !Through(m, d', p, m[d][v / 1024].frame, v % 1024)
  }

  /** The heap of another task is as before when a write for page `v` goes into such a table. */
  lemma LeakBeside(m: Memory, dirs: set<nat>, kernel: nat, d: nat, v: nat, f: nat, ram: set<nat>, used: seq<bool>,
                   other: multiset<nat>, d': nat, top: nat)
    requires Shaped(m, dirs, kernel) && d in dirs && d' in dirs && v < PAGES && d in m && Present(m[d][v / 1024])
    requires OwnedOk(other, m, ram, used) && HeapOk(m, d', other, top) && Beside(m, d, v, d', top)
    ensures OwnedOk(other, Leak(m, d, v, f), ram, used) && HeapOk(Leak(m, d, v, f), d', other, top)
    ensures Leak(m, d, v, f).Keys == m.Keys
  {
    var m' := Leak(m, d, v, f);
    LeakTranslation(m, dirs, kernel, d, v, f, d, v);
    forall x | x in other
      ensures FrameOk(other, m', ram, used, x)
    {
      assert FrameOk(other, m, ram, used, x);
    }
    forall p | BASE_PAGE <= p < top
      ensures Same(m, m', d', p) && PageOk(m', d', other, p)
    {
      LeakTranslation(m, dirs, kernel, d, v, f, d', p);
      assert !Through(m, d', p, m[d][v / 1024].frame, v % 1024) && PageOk(m, d', other, p);
    }
    forall p, q | BASE_PAGE <= p < q < top
      ensures Differ(m', d', p, q)
    {
      assert Differ(m, d', p, q) && Same(m, m', d', p) && Same(m, m', d', q);
    }
  }

  lemma SparesSameKeys(m: Memory, used: seq<bool>, owned: multiset<nat>, m1: Memory, mem': Memory, used': seq<bool>,
                       owned': multiset<nat>)
    requires Spares(m, used, owned, mem', used', owned') && m1.Keys == m.Keys
    ensures Spares(m1, used, owned, mem', used', owned')
  {
    forall g: nat
      ensures Spared(m1, used, owned, mem', used', owned', g)
    {
      assert Spared(m, used, owned, mem', used', owned', g);
    }
  }

  // ---- how far the free frames go ----

  /** The pages that `free` frames can be mapped to, with one more frame for a table each, except for the last. */
  function Reach(free: nat): nat {
    (free + 1) / 2
  }

  /** How many pages a growth by `want` pages maps before it ends or is refused. */
  function Grows(free: nat, room: nat, want: nat): nat {
    var most := if Reach(free) < room then Reach(free) else room;
    if want < most then want else most
  }

  /** The frames that are left after `n` pages. */
  function Left(free: nat, n: nat): nat {
    if 2 * n <= free then free - 2 * n else 0
  }

  /**
   A growth from page `lo` comes to a page with one frame left and no table of its own: neither that entry of the
   directory had one before, nor has the page in front of it been given one.
   */
  ghost predicate Starved(mem: Memory, dirs: set<nat>, d: nat, lo: nat, free: nat, room: nat, want: nat)
    requires lo + want <= PAGES
  {
    var n := free / 2;
    && free % 2 == 1 && n < want && n < room
    && (n == 0 || (lo + n) % 1024 == 0) && !Settled(mem, dirs, d, (lo + n) / 1024)
  }

  /** At any other page there are frames enough, or the page has a table of its own. */
  lemma OwnTableAt(m0: Memory, m: Memory, dirs: set<nat>, d: nat, lo: nat, v: nat, free: nat, room: nat, want: nat)
    requires lo <= v < lo + want <= PAGES && v - lo < room
    requires !(Starved(m0, dirs, d, lo, free, room, want) && v == lo + free / 2)
    requires SettledKept(m0, m, dirs, d) && (lo < v ==> Settled(m, dirs, d, (v - 1) / 1024))
    ensures Left(free, v - lo) == 1 ==> Settled(m, dirs, d, v / 1024)
  {
    if Left(free, v - lo) == 1 {
      assert v - lo == free / 2 && free % 2 == 1;
      assert v % 1024 != 0 ==> (v - 1) / 1024 == v / 1024;
    }
  }

  /** The memory that a growth is compared with: that at first, with the leak if there is one. */
  function Base(m0: Memory, leaks: bool, d: nat, v: nat, f: nat): Memory {
    if leaks && v < PAGES then Leak(m0, d, v, f) else m0
  }

  // ---- a growth as it goes on ----

  /** What a growth from page `lo` starts with; `room` is how many frames may still be owned. */
  datatype Onset = Onset(mem: Memory, used: seq<bool>, owned: multiset<nat>, lo: nat, free: nat, room: nat) {
    /** The page that the last frame may be short for. */
    function Last(): nat {
      lo + free / 2
    }

    /** Frames and places for them last up to before page `hi`. */
    predicate Lasts(hi: nat)
      requires lo <= hi
    {
      Grows(free, room, hi - lo) == hi - lo
    }
  }

  ghost predicate LeaksFor(g: Onset, dirs: set<nat>, d: nat, hi: nat)
    requires g.lo <= hi <= PAGES
  {
    Starved(g.mem, dirs, d, g.lo, g.free, g.room, hi - g.lo)
  }

  ghost predicate SafeFor(g: Onset, dirs: set<nat>, kernel: nat, ram: set<nat>, d: nat, hi: nat)
    requires g.lo <= hi <= PAGES
  {
    LeaksFor(g, dirs, d, hi) ==> Harmless(g.mem, kernel, ram, d, g.Last())
  }

  /**
   How a growth to before page `hi` ends: with every page mapped to a frame that has come to be owned, or with the owned
   frames as they were and the pages that were mapped unmapped again, but for the first one when frames ran out. No
   other translation changes, but those through the table entry that the last frame goes to.
   */
  ghost predicate GrowthEnds(g: Onset, mem: Memory, owned: multiset<nat>, dirs: set<nat>, d: nat, hi: nat, f: nat)
    requires g.lo <= hi <= PAGES
  {
    var n := Grows(g.free, g.room, hi - g.lo);
    && Confined(Base(g.mem, LeaksFor(g, dirs, d, hi), d, g.Last(), f), mem, dirs, d, g.lo, g.lo + n)
    && if g.Lasts(hi) then HeapOk(mem, d, owned, hi) && owned == g.owned + Frames(mem, d, g.lo, hi)
       else
         && HeapOk(mem, d, owned, g.lo) && owned == g.owned
         && Emptied(mem, d, owned, g.lo, g.lo + n, n == Reach(g.free))
  }

  lemma EndsAbove(g: Onset, mem: Memory, owned: multiset<nat>, dirs: set<nat>, d: nat, hi: nat, f: nat)
    requires g.lo <= hi <= PAGES && g.Lasts(hi)
    requires Growing(Base(g.mem, LeaksFor(g, dirs, d, hi), d, g.Last(), f), g.owned, mem, owned, dirs, d, g.lo, hi)
    ensures GrowthEnds(g, mem, owned, dirs, d, hi, f)
  {
    AccountsExactly(mem, d, g.lo, hi, g.owned, owned);
  }

  lemma EndsBelow(g: Onset, mem: Memory, owned: multiset<nat>, dirs: set<nat>, d: nat, hi: nat, v: nat, f: nat)
    requires g.lo <= v < hi <= PAGES && v - g.lo == Grows(g.free, g.room, hi - g.lo)
    requires Confined(Base(g.mem, LeaksFor(g, dirs, d, hi), d, g.Last(), f), mem, dirs, d, g.lo, v)
    requires HeapOk(mem, d, owned, g.lo) && owned == g.owned
    requires Emptied(mem, d, owned, g.lo, v, Left(g.free, v - g.lo) == 0)
    ensures GrowthEnds(g, mem, owned, dirs, d, hi, f)
  {
    assert Left(g.free, v - g.lo) == 0 <==> v - g.lo == Reach(g.free);
  }

  /** The numbers and the frames when the growth has come to page `v`. */
  ghost predicate Halfway(g: Onset, mem: Memory, used: seq<bool>, owned: seq<nat>, dirs: set<nat>, d: nat, v: nat) {
    && Spares(g.mem, g.used, g.owned, mem, used, multiset(owned)) && g.lo <= v
    && |owned| == MAX_OWNED - g.room + (v - g.lo) && |FreeFrames(used)| == Left(g.free, v - g.lo)
    && v - g.lo <= Reach(g.free) && SettledKept(g.mem, mem, dirs, d)
  }

  /** The pages up to before `v` are mapped, each in a table of the task's own. */
  ghost predicate Underway(g: Onset, mem: Memory, used: seq<bool>, owned: seq<nat>, dirs: set<nat>, d: nat, v: nat) {
    && Growing(g.mem, g.owned, mem, multiset(owned), dirs, d, g.lo, v) && Halfway(g, mem, used, owned, dirs, d, v)
    && (g.lo < v ==> Settled(mem, dirs, d, (v - 1) / 1024)) && RowsSince(g.mem, mem, dirs, d, g.lo, v)
  }

  /** The pages up to before `v` are mapped, the last one with the last frame and in a table that others share. */
  ghost predicate Leaked(g: Onset, mem: Memory, used: seq<bool>, owned: seq<nat>, dirs: set<nat>, d: nat, v: nat,
                         f: nat) {
    && g.lo < v <= PAGES && g.free % 2 == 1 && v - 1 == g.Last()
    && Growing(Leak(g.mem, d, v - 1, f), g.owned, mem, multiset(owned), dirs, d, g.lo, v)
    && Halfway(g, mem, used, owned, dirs, d, v) && Translation(mem, d, v - 1) == Entry(f, USER_FLAGS)
  }

  ghost predicate MappingAt(g: Onset, mem: Memory, used: seq<bool>, owned: seq<nat>, dirs: set<nat>, d: nat, v: nat,
                            leaked: bool, f: nat) {
    if leaked then Leaked(g, mem, used, owned, dirs, d, v, f) else Underway(g, mem, used, owned, dirs, d, v)
  }

  lemma HalfwayOn(g: Onset, m: Memory, used: seq<bool>, was: seq<nat>, m': Memory, used': seq<bool>, now: seq<nat>,
                  dirs: set<nat>, d: nat, v: nat)
    requires Halfway(g, m, used, was, dirs, d, v) && |now| == |was| + 1
    requires |FreeFrames(used)| > 0 && |FreeFrames(used')| == Left(|FreeFrames(used)|, 1)
    requires Spares(m, used, multiset(was), m', used', multiset(now)) && SettledKept(m, m', dirs, d)
    ensures Halfway(g, m', used', now, dirs, d, v + 1)
  {
    SparesTwice(g.mem, g.used, g.owned, m, used, multiset(was), m', used', multiset(now));
    SettledKeptTwice(g.mem, m, m', dirs, d);
  }

  /** What page `v` is mapped with, if it is mapped: a second frame, a table of its own, or a harmless one. */
  lemma ReadyAt(g: Onset, m: Memory, used: seq<bool>, owned: seq<nat>, dirs: set<nat>, kernel: nat, ram: set<nat>,
                d: nat, v: nat, hi: nat, leaked: bool, f: nat)
    requires g.lo <= v < hi <= PAGES && kernel in dirs && d != kernel && |owned| <= MAX_OWNED
    requires MappingAt(g, m, used, owned, dirs, d, v, leaked, f) && SafeFor(g, dirs, kernel, ram, d, hi)
    ensures leaked ==> |FreeFrames(used)| == 0 && v - g.lo == Reach(g.free)
    ensures !leaked && LeaksFor(g, dirs, d, hi) && v == g.Last() ==>
      && |FreeFrames(used)| == 1 && |owned| < MAX_OWNED && (v == g.lo || v % 1024 == 0)
      && !Settled(m, dirs, d, v / 1024) && Harmless(m, kernel, ram, d, v)
    ensures
      var starved := LeaksFor(g, dirs, d, hi) && v == g.Last();
      !leaked && !starved && |FreeFrames(used)| == 1 && |owned| < MAX_OWNED ==> Settled(m, dirs, d, v / 1024)
    ensures |FreeFrames(used)| == 0 ==> v - g.lo == Reach(g.free)
    ensures |owned| == MAX_OWNED ==> v - g.lo == g.room
  {
    if !leaked {
      if LeaksFor(g, dirs, d, hi) && v == g.Last() {
        StillHarmless(g.mem, m, dirs, kernel, ram, d, g.lo, v);
        StillShared(g.mem, m, dirs, kernel, ram, d, g.lo, v);
      } else if |FreeFrames(used)| == 1 && |owned| < MAX_OWNED {
        OwnTableAt(g.mem, m, dirs, d, g.lo, v, g.free, g.room, hi - g.lo);
      }
    }
  }

  class Task {
    const machine: Machine
    const dir: nat
    var owned: seq<nat>
    var brk: nat

    constructor (machine: Machine, dir: nat)
      ensures this.machine == machine && this.dir == dir && owned == [] && brk == HEAP_BASE
    {
      this.machine, this.dir, owned, brk := machine, dir, [], HEAP_BASE;
    }

    ghost predicate Sound()
      reads this, machine, machine.pmm, machine.pmm.words
    {
      && machine.Shape() && machine.Ident() && dir in machine.dirs && dir != machine.kernel
      && |owned| <= MAX_OWNED && OwnedOk(multiset(owned), machine.mem, machine.ram, machine.pmm.used)
    }

    function Break(): (b: nat)
      reads this
      ensures b >= brk && b >= HEAP_BASE && (b == brk || b == HEAP_BASE)
    {
      if brk < HEAP_BASE then HEAP_BASE else brk
    }

    /** Each page from the base up to the break, rounded up, is mapped to an owned frame of its own. */
    ghost predicate Valid()
      reads this, machine, machine.pmm, machine.pmm.words
    {
      Sound() && brk <= HEAP_MAX && HeapOk(machine.mem, dir, multiset(owned), PageUp(Break()))
    }

    method RemoveAt(i: nat)
      requires i < |owned|
      modifies this`owned
      ensures multiset(owned) == multiset(old(owned)) - multiset{old(owned)[i]} && |owned| == |old(owned)| - 1
    {
      Untracked(owned, i);
      owned := owned[i := owned[|owned| - 1]][..|owned| - 1];
    }

    /** Forgets a frame: the last one in the list takes its place. */
    method Untrack(f: nat) returns (ok: bool)
      modifies this`owned
      ensures ok <==> f in old(owned)
      ensures multiset(owned) == if ok then multiset(old(owned)) - multiset{f} else multiset(old(owned))
      ensures |owned| <= |old(owned)|
    {
      var i := 0;
      while i < |owned|
        invariant 0 <= i <= |owned| && owned == old(owned)
        invariant forall k :: 0 <= k < i ==> owned[k] != f
      {
        if owned[i] == f {
          RemoveAt(i);
          return true;
        }
        i := i + 1;
      }
      return false;
    }

    method Track(f: nat) returns (ok: bool)
      modifies this`owned
      ensures ok <==> |old(owned)| < MAX_OWNED
      ensures owned == if ok then old(owned) + [f] else old(owned)
    {
      ok := |owned| + 1 <= MAX_OWNED;
      if ok {
        owned := owned + [f];
      }
    }

    /** The frame that a page is mapped to, or 0. */
    method Translate(v: nat) returns (f: nat)
      requires machine.Shape() && dir in machine.dirs && v < PAGES
      ensures f == if Present(Translation(machine.mem, dir, v)) then Translation(machine.mem, dir, v).frame else 0
    {
      assert DirOk(machine.mem, machine.dirs, dir);
      var e := machine.mem[dir][v / 1024];
      if !Present(e) {
        return 0;
      }
      var t := machine.mem[e.frame][v % 1024];
      f := if Present(t) then t.frame else 0;
    }

    /**
     Unmaps a heap page and gives its frame back. When no frame is free for the copy of the table, the page stays mapped
     to the frame that was given back.
     */
    method DropPage(v: nat, ghost lo: nat, ghost top: nat)
      requires Sound() && BASE_PAGE <= lo <= v < top && HeapBut(machine.mem, dir, multiset(owned), lo, v, top)
      modifies this`owned, machine`mem, machine.pmm, machine.pmm.words
      ensures Sound() && |machine.Free()| == |old(machine.Free())| + if old(machine.Free()) == {} then 1 else 0
      ensures Dropped(old(machine.mem), multiset(old(owned)), machine.mem, multiset(owned), machine.dirs, dir, lo, v,
                      top, old(machine.Free()) != {})
      ensures Spares(old(machine.mem), old(machine.pmm.used), multiset(old(owned)), machine.mem, machine.pmm.used,
                     multiset(owned))
    {
      ghost var mem := machine.mem;
      assert InHeap(v, lo, v, top) && PageOk(mem, dir, multiset(owned), v);
      var p := Translate(v);
      assert FrameOk(multiset(owned), mem, machine.ram, machine.pmm.used, p);
      machine.UnmapPage(dir, v);
      HeapLoses(mem, machine.mem, machine.dirs, dir, multiset(owned), lo, v, top);
      ghost var used := machine.pmm.used;
      if p != 0 {
        var ok := Untrack(p);
        machine.GiveFrame(p);
        DropSpares(mem, old(machine.pmm.used), multiset(old(owned)), machine.mem, used, p);
        OwnedShrinks(multiset(old(owned)), mem, machine.ram, old(machine.pmm.used), machine.mem, used,
                     machine.pmm.used, p);
      }
    }

    /** The pages `lo` to before `v` are dropped, and from the first one on a frame is free. */
    ghost predicate Shrinking(m0: Memory, used0: seq<bool>, owned0: multiset<nat>, lo: nat, v: nat, hi: nat,
                              clean: bool)
      reads this, machine, machine.pmm, machine.pmm.words
    {
      && Spares(m0, used0, owned0, machine.mem, machine.pmm.used, multiset(owned))
      && Sound() && (machine.Free() != {} <==> clean || lo < v)
      && Dropping(m0, owned0, machine.mem, multiset(owned), machine.dirs, dir, lo, v, hi, clean)
    }

    method DropTurn(v: nat, ghost m0: Memory, ghost used0: seq<bool>, ghost owned0: multiset<nat>, ghost lo: nat,
                    ghost hi: nat, ghost clean: bool)
      returns (v': nat)
      requires BASE_PAGE <= lo <= v < hi && Shrinking(m0, used0, owned0, lo, v, hi, clean)
      modifies this`owned, machine`mem, machine.pmm, machine.pmm.words
      ensures v' == v + 1 && Shrinking(m0, used0, owned0, lo, v', hi, clean)
    {
      v' := v + 1;
      DropPage(v, lo, hi);
      SparesTwice(m0, used0, owned0, old(machine.mem), old(machine.pmm.used), multiset(old(owned)), machine.mem,
                  machine.pmm.used, multiset(owned));
      DroppingStep(m0, owned0, old(machine.mem), multiset(old(owned)), machine.mem, multiset(owned), machine.dirs,
                   dir, lo, v, hi, clean);
    }

    method DropLoop(lo: nat, hi: nat, ghost m0: Memory, ghost used0: seq<bool>, ghost owned0: multiset<nat>,
                    ghost clean: bool)
      requires BASE_PAGE <= lo <= hi && Shrinking(m0, used0, owned0, lo, lo, hi, clean)
      modifies this`owned, machine`mem, machine.pmm, machine.pmm.words
      ensures Shrinking(m0, used0, owned0, lo, hi, hi, clean)
    {
      var v := lo;
      while v < hi
        invariant lo <= v <= hi && Shrinking(m0, used0, owned0, lo, v, hi, clean)
      {
        v := DropTurn(v, m0, used0, owned0, lo, hi, clean);
      }
    }

    /**
     Drops the pages `lo` to before `hi`, from the bottom up. When no frame is free to begin with, the first one stays
     mapped to its frame, which is given back and serves the copies of the tables from then on.
     */
    method DropPages(lo: nat, hi: nat)
      requires Sound() && BASE_PAGE <= lo <= hi && HeapOk(machine.mem, dir, multiset(owned), hi)
      modifies this`owned, machine`mem, machine.pmm, machine.pmm.words
      ensures Sound() && HeapOk(machine.mem, dir, multiset(owned), lo)
      ensures Confined(old(machine.mem), machine.mem, machine.dirs, dir, lo, hi)
      ensures multiset(owned) + Frames(old(machine.mem), dir, lo, hi) == multiset(old(owned))
      ensures Emptied(machine.mem, dir, multiset(owned), lo, hi, old(machine.Free()) == {})
      ensures Spares(old(machine.mem), old(machine.pmm.used), multiset(old(owned)), machine.mem, machine.pmm.used,
                     multiset(owned))
    {
      ghost var m0, owned0, clean := machine.mem, multiset(owned), machine.Free() != {};
      ghost var used0 := machine.pmm.used;
      NoHole(m0, owned0, machine.dirs, dir, lo, hi, clean);
      OwnedOnce(owned0, m0, machine.ram, machine.pmm.used);
      DropLoop(lo, hi, m0, used0, owned0, clean);
      DroppingDone(m0, owned0, machine.mem, multiset(owned), machine.dirs, dir, lo, hi, clean);
    }

    /** Page `v` has no table of its own, and writing to the one that is there does no harm. */
    ghost predicate LeaksAt(mem: Memory, v: nat)
      requires v < PAGES
      reads machine
    {
      !Settled(mem, machine.dirs, dir, v / 1024) && Harmless(mem, machine.kernel, machine.ram, dir, v)
    }

    /** Page `v` is mapped to a frame that has come to be owned, in a table of its own, and nothing else has changed. */
    ghost predicate GrownAlone(m: Memory, was: seq<nat>, v: nat)
      requires v < PAGES
      reads this, machine, machine.pmm, machine.pmm.words
    {
      && Sound() && Isolated(m, machine.mem, machine.dirs, dir, v)
      && owned == was + [Translation(machine.mem, dir, v).frame]
      && HeapOk(machine.mem, dir, multiset(owned), v + 1)
      && Settled(machine.mem, machine.dirs, dir, v / 1024)
      && SettledKept(m, machine.mem, machine.dirs, dir)
      && RowsKept(m, machine.mem, machine.dirs, dir, v / 1024)
      && (forall g :: g in m ==> g in machine.mem)
    }

    /** Page `v` is mapped to a frame that has come to be owned, in the table that is there. */
    ghost predicate GrownShared(m: Memory, was: seq<nat>, v: nat)
      requires v < PAGES
      reads this, machine, machine.pmm, machine.pmm.words
    {
      && Sound() && |owned| == |was| + 1 && owned == was + [owned[|was|]]
      && machine.mem == Leak(m, dir, v, owned[|was|])
      && HeapOk(machine.mem, dir, multiset(owned), v + 1)
      && SettledKept(m, machine.mem, machine.dirs, dir)
    }

    /**
     One more heap page. With a second free frame for its table, or a table of its own, the page is mapped and nothing
     else changes. With neither, the frame goes into a table that others share, or nowhere when there is no table.
     */
    method GrowPage(v: nat) returns (r: Growth)
      requires Sound() && BASE_PAGE <= v < PAGES && HeapOk(machine.mem, dir, multiset(owned), v)
      modifies this`owned, machine`mem, machine.pmm, machine.pmm.words
      ensures r ==
        if old(machine.Free()) == {} then NoMemory else if |old(owned)| >= MAX_OWNED then TooMany else Grown
      ensures r != Grown ==>
        && Sound() && machine.mem == old(machine.mem) && owned == old(owned)
        && machine.pmm.used == old(machine.pmm.used)
      ensures r == Grown ==> |owned| == |old(owned)| + 1 && |machine.Free()| == Left(|old(machine.Free())|, 1)
      ensures r == Grown && (|old(machine.Free())| >= 2 || Settled(old(machine.mem), machine.dirs, dir, v / 1024)) ==>
        GrownAlone(old(machine.mem), old(owned), v)
      ensures r == Grown && |old(machine.Free())| == 1 && !Settled(old(machine.mem), machine.dirs, dir, v / 1024) ==>
        Misplaced(old(machine.mem), machine.mem, machine.dirs, dir, v, owned[|old(owned)|])
      ensures r == Grown && |old(machine.Free())| == 1 && LeaksAt(old(machine.mem), v) ==>
        GrownShared(old(machine.mem), old(owned), v)
      ensures Spares(old(machine.mem), old(machine.pmm.used), multiset(old(owned)), machine.mem, machine.pmm.used,
                     multiset(owned))
    {
      var f := machine.TakeFrame();
      if f == 0 {
        return NoMemory;
      }
      var ok := Track(f);
      if !ok {
        machine.GiveFrame(f);
        assert machine.pmm.used == old(machine.pmm.used);
        return TooMany;
      }
      assert machine.pmm.used[f := false] == old(machine.pmm.used);
      MapHeapPage(f, v, old(owned));
      GrowSpares(old(machine.mem), old(machine.pmm.used), multiset(old(owned)), machine.mem, machine.pmm.used, f);
      assert multiset(owned) == multiset(old(owned)) + multiset{f};
      return Grown;
    }

    /** Maps a page to a frame that has just been taken and tracked. */
    method MapHeapPage(f: nat, v: nat, ghost was: seq<nat>)
      requires machine.Shape() && machine.Ident() && dir in machine.dirs && dir != machine.kernel
      requires owned == was + [f] && |owned| <= MAX_OWNED && BASE_PAGE <= v < PAGES
      requires HeapOk(machine.mem, dir, multiset(was), v)
      requires 0 < f < |machine.pmm.used| && machine.pmm.used[f] && f in machine.ram && f !in machine.mem
      requires OwnedOk(multiset(was), machine.mem, machine.ram, machine.pmm.used[f := false])
      modifies machine`mem, machine.pmm, machine.pmm.words
      ensures |machine.Free()| == if old(machine.Free()) == {} then 0 else |old(machine.Free())| - 1
      ensures Machine.OnlyFresh(old(machine.mem), old(machine.pmm.used), machine.mem)
      ensures Machine.OnlyTaken(old(machine.pmm.used), machine.pmm.used)
      ensures old(machine.Free()) != {} || Settled(old(machine.mem), machine.dirs, dir, v / 1024) ==>
        && Sound() && Isolated(old(machine.mem), machine.mem, machine.dirs, dir, v)
        && Translation(machine.mem, dir, v).frame == f && HeapOk(machine.mem, dir, multiset(owned), v + 1)
        && Settled(machine.mem, machine.dirs, dir, v / 1024)
        && SettledKept(old(machine.mem), machine.mem, machine.dirs, dir)
      ensures old(machine.Free()) != {} || Settled(old(machine.mem), machine.dirs, dir, v / 1024) ==>
        RowsKept(old(machine.mem), machine.mem, machine.dirs, dir, v / 1024)
      ensures old(machine.Free()) == {} && !Settled(old(machine.mem), machine.dirs, dir, v / 1024) ==>
        Misplaced(old(machine.mem), machine.mem, machine.dirs, dir, v, f)
      ensures old(machine.Free()) == {} && LeaksAt(old(machine.mem), v) ==>
        && Sound() && machine.mem == Leak(old(machine.mem), dir, v, f)
        && HeapOk(machine.mem, dir, multiset(owned), v + 1)
        && SettledKept(old(machine.mem), machine.mem, machine.dirs, dir)
    {
      ghost var used := machine.pmm.used;
      assert DirOk(machine.mem, machine.dirs, dir);
      machine.MapUserPage(dir, f, v, USER_FLAGS);
      if old(machine.Free()) != {} || Settled(old(machine.mem), machine.dirs, dir, v / 1024) {
        IdentityKept(old(machine.mem), machine.mem, machine.dirs, machine.kernel, machine.ram, dir, v);
        assert used[f := false][f := true] == used;
        OwnedGrows(multiset(was), old(machine.mem), machine.ram, used[f := false], machine.mem, machine.pmm.used, f);
        HeapGrows(old(machine.mem), machine.mem, machine.dirs, dir, multiset(was), v, f);
        assert multiset(owned) == multiset(was) + multiset{f};
        assert Settled(machine.mem, machine.dirs, dir, v / 1024);
      } else if LeaksAt(old(machine.mem), v) {
        LeakIsHarmless(old(machine.mem), machine.dirs, machine.kernel, machine.ram, dir, v, f);
        assert used[f := false][f := true] == used;
        OwnedGrows(multiset(was), old(machine.mem), machine.ram, used[f := false], machine.mem, machine.pmm.used, f);
        HeapGrows(old(machine.mem), machine.mem, {dir}, dir, multiset(was), v, f);
        assert multiset(owned) == multiset(was) + multiset{f};
      }
    }

    /** What a growth from page `lo` starts with. */
    ghost function Start(lo: nat): Onset
      reads this, machine, machine.pmm
    {
      var room := if |owned| <= MAX_OWNED then MAX_OWNED - |owned| else 0;
      Onset(machine.mem, machine.pmm.used, multiset(owned), lo, |machine.Free()|, room)
    }

    ghost predicate Mapping(g: Onset, v: nat, leaked: bool, f: nat)
      reads this, machine, machine.pmm, machine.pmm.words
    {
      Sound() && MappingAt(g, machine.mem, machine.pmm.used, owned, machine.dirs, dir, v, leaked, f)
    }

    /** One turn of the growth; `v'` is the page that comes next. */
    method GrowTurn(v: nat, ghost g: Onset, ghost hi: nat, ghost leaked: bool, ghost f: nat)
      returns (ok: bool, v': nat, ghost leaked': bool, ghost f': nat)
      requires BASE_PAGE <= g.lo <= v < hi <= PAGES && g.room <= MAX_OWNED
      requires Shaped(g.mem, machine.dirs, machine.kernel)
      requires Mapping(g, v, leaked, f) && SafeFor(g, machine.dirs, machine.kernel, machine.ram, dir, hi)
      modifies this`owned, machine`mem, machine.pmm, machine.pmm.words
      ensures Mapping(g, v', leaked', f') && v' == if ok then v + 1 else v
      ensures ok ==> !leaked && (leaked' <==> LeaksFor(g, machine.dirs, dir, hi) && v == g.Last())
      ensures !ok ==> leaked' == leaked && (v - g.lo == g.room || v - g.lo == Reach(g.free))
    {
      v', leaked', f' := v, leaked, f;
      ghost var m, used, was := machine.mem, machine.pmm.used, owned;
      ghost var starved := LeaksFor(g, machine.dirs, dir, hi) && v == g.Last();
      ReadyAt(g, m, used, was, machine.dirs, machine.kernel, machine.ram, dir, v, hi, leaked, f);
      var r := GrowPage(v);
      ok := r == Grown;
      if ok {
        v', leaked', f' := v + 1, starved, owned[|was|];
        if starved {
          SharedTurn(g, m, used, was, v, v');
        } else {
          AloneTurn(g, m, used, was, v, v');
        }
      }
    }

    lemma AloneTurn(g: Onset, m: Memory, used: seq<bool>, was: seq<nat>, v: nat, v': nat)
      requires v' == v + 1 <= PAGES && Underway(g, m, used, was, machine.dirs, dir, v) && GrownAlone(m, was, v)
      requires |FreeFrames(used)| > 0 && |machine.Free()| == Left(|FreeFrames(used)|, 1)
      requires Spares(m, used, multiset(was), machine.mem, machine.pmm.used, multiset(owned))
      ensures Underway(g, machine.mem, machine.pmm.used, owned, machine.dirs, dir, v')
    {
      HalfwayOn(g, m, used, was, machine.mem, machine.pmm.used, owned, machine.dirs, dir, v);
      assert multiset(owned) == multiset(was) + multiset{Translation(machine.mem, dir, v).frame};
      GrowingStep(g.mem, g.owned, m, multiset(was), machine.mem, multiset(owned), machine.dirs, dir, g.lo, v);
      RowsSinceStep(g.mem, m, machine.mem, machine.dirs, dir, g.lo, v, v + 1);
    }

    lemma SharedTurn(g: Onset, m: Memory, used: seq<bool>, was: seq<nat>, v: nat, v': nat)
      requires v' == v + 1 <= PAGES && Underway(g, m, used, was, machine.dirs, dir, v) && GrownShared(m, was, v)
      requires |FreeFrames(used)| > 0 && |machine.Free()| == Left(|FreeFrames(used)|, 1)
      requires g.free % 2 == 1 && v == g.Last() && (v == g.lo || v % 1024 == 0)
      requires Spares(m, used, multiset(was), machine.mem, machine.pmm.used, multiset(owned))
      requires Harmless(g.mem, machine.kernel, machine.ram, dir, v) && Shaped(g.mem, machine.dirs, machine.kernel)
      requires Shaped(m, machine.dirs, machine.kernel) && Identity(m, machine.kernel, machine.ram)
      ensures Leaked(g, machine.mem, machine.pmm.used, owned, machine.dirs, dir, v', owned[|was|])
    {
      HalfwayOn(g, m, used, was, machine.mem, machine.pmm.used, owned, machine.dirs, dir, v);
      LeakTurn(g.mem, g.owned, m, was, g.lo, v, owned[|was|]);
    }

    lemma LeakTurn(m0: Memory, owned0: multiset<nat>, m: Memory, was: seq<nat>, lo: nat, v: nat, f: nat)
      requires lo <= v < PAGES && (v == lo || v % 1024 == 0) && dir in machine.dirs && dir != machine.kernel
      requires Shaped(m0, machine.dirs, machine.kernel) && Shaped(m, machine.dirs, machine.kernel)
      requires Growing(m0, owned0, m, multiset(was), machine.dirs, dir, lo, v)
      requires RowsSince(m0, m, machine.dirs, dir, lo, v) && Identity(m, machine.kernel, machine.ram)
      requires Harmless(m0, machine.kernel, machine.ram, dir, v)
      requires owned == was + [f] && machine.mem == Leak(m, dir, v, f)
      requires HeapOk(machine.mem, dir, multiset(owned), v + 1)
      ensures Growing(Leak(m0, dir, v, f), owned0, machine.mem, multiset(owned), machine.dirs, dir, lo, v + 1)
      ensures Translation(machine.mem, dir, v) == Entry(f, USER_FLAGS)
    {
      assert multiset(owned) == multiset(was) + multiset{f};
      LeakStep(m0, owned0, m, multiset(was), multiset(owned), machine.dirs, machine.kernel, machine.ram, dir, lo, v, f);
      StillHarmless(m0, m, machine.dirs, machine.kernel, machine.ram, dir, lo, v);
      LeakIsHarmless(m, machine.dirs, machine.kernel, machine.ram, dir, v, f);
    }

    /** Drops the pages that a growth from page `lo` has mapped so far. */
    method TakeBack(lo: nat, v: nat, ghost m0: Memory, ghost owned0: multiset<nat>)
      requires Sound() && BASE_PAGE <= lo
      requires Growing(m0, owned0, machine.mem, multiset(owned), machine.dirs, dir, lo, v)
      modifies this`owned, machine`mem, machine.pmm, machine.pmm.words
      ensures Sound() && multiset(owned) == owned0 && HeapOk(machine.mem, dir, multiset(owned), lo)
      ensures Confined(m0, machine.mem, machine.dirs, dir, lo, v)
      ensures Emptied(machine.mem, dir, multiset(owned), lo, v, old(machine.Free()) == {})
      ensures Spares(old(machine.mem), old(machine.pmm.used), multiset(old(owned)), machine.mem, machine.pmm.used,
                     multiset(owned))
    {
      DropPages(lo, v);
      RolledBack(m0, owned0, old(machine.mem), multiset(old(owned)), machine.mem, multiset(owned), machine.dirs, dir,
                 lo, v);
    }

    /** Maps pages from `lo` on, up to before `hi` or until one is refused. */
    method MapPages(lo: nat, hi: nat, ghost g: Onset) returns (v: nat, ghost f: nat)
      requires Sound() && BASE_PAGE <= lo <= hi <= PAGES && HeapOk(machine.mem, dir, multiset(owned), lo)
      requires g == Start(lo)
      requires SafeFor(g, machine.dirs, machine.kernel, machine.ram, dir, hi)
      modifies this`owned, machine`mem, machine.pmm, machine.pmm.words
      ensures Sound() && v == lo + Grows(g.free, g.room, hi - lo) && |machine.Free()| == Left(g.free, v - lo)
      ensures
        var leaks := LeaksFor(g, machine.dirs, dir, hi);
        var base := Base(g.mem, leaks, dir, g.Last(), f);
        && Growing(base, g.owned, machine.mem, multiset(owned), machine.dirs, dir, lo, v)
        && (leaks ==> Translation(machine.mem, dir, g.Last()) == Entry(f, USER_FLAGS))
      ensures Spares(g.mem, g.used, g.owned, machine.mem, machine.pmm.used, multiset(owned))
    {
      NotGrown(g.mem, g.owned, machine.dirs, dir, lo);
      RowsSinceStart(g.mem, machine.dirs, machine.kernel, dir, lo);
      ghost var leaked;
      v, leaked, f := MapLoop(lo, hi, g);
    }

    method MapLoop(lo: nat, hi: nat, ghost g: Onset) returns (v: nat, ghost leaked: bool, ghost f: nat)
      requires BASE_PAGE <= lo <= hi <= PAGES && g.lo == lo && g.room <= MAX_OWNED
      requires Shaped(g.mem, machine.dirs, machine.kernel) && Mapping(g, lo, false, 0)
      requires SafeFor(g, machine.dirs, machine.kernel, machine.ram, dir, hi)
      modifies this`owned, machine`mem, machine.pmm, machine.pmm.words
      ensures lo <= v <= hi && Mapping(g, v, leaked, f) && (v == hi || v - lo == g.room || v - lo == Reach(g.free))
      ensures leaked <==> LeaksFor(g, machine.dirs, dir, hi) && v > g.Last()
    {
      v, leaked, f := lo, false, 0;
      while v < hi
        invariant lo <= v <= hi && Mapping(g, v, leaked, f)
        invariant leaked <==> LeaksFor(g, machine.dirs, dir, hi) && v > g.Last()
      {
        var ok;
        ok, v, leaked, f := GrowTurn(v, g, hi, leaked, f);
        if !ok {
          return;
        }
      }
    }

    /**
     Grows the heap from page `lo` to before page `hi`, or takes back what it mapped. When it is the frames that ran
     out, the first page that was mapped stays mapped to its frame although that was given back. When the last frame
     goes to a page without a table of its own, all that share the table are mapped to it as well, and stay so.
     */
    method GrowPages(lo: nat, hi: nat) returns (ok: bool, ghost f: nat)
      requires Sound() && BASE_PAGE <= lo <= hi <= PAGES && HeapOk(machine.mem, dir, multiset(owned), lo)
      requires SafeFor(Start(lo), machine.dirs, machine.kernel, machine.ram, dir, hi)
      modifies this`owned, machine`mem, machine.pmm, machine.pmm.words
      ensures Sound() && (ok <==> old(Start(lo)).Lasts(hi))
      ensures Spares(old(machine.mem), old(machine.pmm.used), multiset(old(owned)), machine.mem, machine.pmm.used,
                     multiset(owned))
      ensures GrowthEnds(old(Start(lo)), machine.mem, multiset(owned), machine.dirs, dir, hi, f)
      ensures ok ==> |machine.Free()| == Left(|old(machine.Free())|, hi - lo)
    {
      ghost var g := Start(lo);
      var v;
      v, f := MapPages(lo, hi, g);
      ok := v == hi;
      if ok {
        EndsAbove(g, machine.mem, multiset(owned), machine.dirs, dir, hi, f);
      } else {
        ghost var m, used, was := machine.mem, machine.pmm.used, multiset(owned);
        TakeBack(lo, v, Base(g.mem, LeaksFor(g, machine.dirs, dir, hi), dir, g.Last(), f), g.owned);
        SparesTwice(g.mem, g.used, g.owned, m, used, was, machine.mem, machine.pmm.used, multiset(owned));
        EndsBelow(g, machine.mem, multiset(owned), machine.dirs, dir, hi, v, f);
      }
    }

    /** The growth to `newBreak`, if it is one, would come to a page with one frame left and no table of its own. */
    ghost predicate Starves(newBreak: nat)
      reads this, machine, machine.pmm
    {
      var cur, top := PageUp(Break()), PageUp(newBreak);
      cur < top <= PAGES && LeaksFor(Start(cur), machine.dirs, dir, top)
    }

    /** What that page is written with reaches no memory of the kernel's and no other page of the task. */
    ghost predicate StarvesSafely()
      reads this, machine, machine.pmm
    {
      var page := Start(PageUp(Break())).Last();
      page < PAGES && Harmless(machine.mem, machine.kernel, machine.ram, dir, page)
    }

    /** What the pages are after the top of the heap was to move from page `cur` to page `top`. */
    ghost predicate Moved(g: Onset, cur: nat, top: nat, f: nat)
      requires cur <= PAGES && top <= PAGES && g.lo == cur
      reads this, machine
    {
      if top == cur then machine.mem == g.mem && multiset(owned) == g.owned
      else if top < cur then
        && Confined(g.mem, machine.mem, machine.dirs, dir, top, cur)
        && Emptied(machine.mem, dir, multiset(owned), top, cur, g.free == 0)
        && multiset(owned) + Frames(g.mem, dir, top, cur) == g.owned
      else GrowthEnds(g, machine.mem, multiset(owned), machine.dirs, dir, top, f)
    }

    method MoveTop(cur: nat, top: nat) returns (ok: bool, ghost f: nat)
      requires Sound() && BASE_PAGE <= cur <= PAGES && BASE_PAGE <= top <= PAGES
      requires HeapOk(machine.mem, dir, multiset(owned), cur)
      requires cur < top ==> SafeFor(Start(cur), machine.dirs, machine.kernel, machine.ram, dir, top)
      modifies this`owned, machine`mem, machine.pmm, machine.pmm.words
      ensures Sound() && HeapOk(machine.mem, dir, multiset(owned), if ok then top else cur)
      ensures ok <==> cur < top ==> old(Start(cur)).Lasts(top)
      ensures Moved(old(Start(cur)), cur, top, f) && (top == cur ==> owned == old(owned))
      ensures ok && cur < top ==> |machine.Free()| == Left(|old(machine.Free())|, top - cur)
      ensures Spares(old(machine.mem), old(machine.pmm.used), multiset(old(owned)), machine.mem, machine.pmm.used,
                     multiset(owned))
    {
      ok, f := true, 0;
      if top > cur {
        ok, f := GrowPages(cur, top);
      } else if top < cur {
        DropPages(top, cur);
      }
    }

    /**
     Sets the break. Every heap page below it is then mapped to an owned frame of its own. A growth is refused exactly
     if frames run out or more than 256 would be owned; it leaves the break and the owned frames as they were. A page
     above the break stays mapped to a frame that was given back exactly if frames ran out after a page was mapped, or
     none was free at a shrink; it is the first page above the break. No translation of another task or of the kernel
     changes, but those through the table entry that the last frame is written to when the page has no table of its own.
     */
    method SetBreak(newBreak: nat) returns (r: nat, ghost f: nat)
      requires Valid() && (Starves(newBreak) ==> StarvesSafely())
      modifies this, machine`mem, machine.pmm, machine.pmm.words
      ensures Valid() && r == Break()
      ensures Spares(old(machine.mem), old(machine.pmm.used), multiset(old(owned)), machine.mem, machine.pmm.used,
                     multiset(owned))
      ensures newBreak < HEAP_BASE || newBreak > HEAP_MAX ==>
        brk == old(brk) && owned == old(owned) && machine.mem == old(machine.mem)
      ensures HEAP_BASE <= newBreak <= HEAP_MAX ==>
        var cur, top := PageUp(old(Break())), PageUp(newBreak);
        && Moved(old(Start(cur)), cur, top, f) && (top == cur ==> owned == old(owned))
        && (cur < top && brk == newBreak ==> |machine.Free()| == Left(|old(machine.Free())|, top - cur))
        && brk == if cur < top && !old(Start(cur)).Lasts(top) then old(brk) else newBreak
    {
      r, f := Break(), 0;
      if newBreak == 0 || newBreak < HEAP_BASE || newBreak > HEAP_MAX {
        return;
      }
      var ok;
      ok, f := MoveTop(PageUp(r), PageUp(newBreak));
      if ok {
        brk, r := newBreak, newBreak;
      }
    }

    /** The table entry that a starving growth writes to is none that the other task's heap is translated through. */
    ghost predicate Sidesteps(newBreak: nat, other: Task)
      reads this, other, machine, machine.pmm
    {
      var page, top := Start(PageUp(Break())).Last(), PageUp(other.Break());
      StarvesSafely() && top <= PAGES && Beside(machine.mem, dir, page, other.dir, top)
    }

    /** Another task with frames of its own keeps its heap: its frames, its translations and its break. */
    method SetBreakBeside(newBreak: nat, other: Task) returns (r: nat)
      requires Valid() && other != this && other.machine == machine && other.dir != dir
      requires other.Valid() && forall f :: f in multiset(other.owned) ==> f !in multiset(owned)
      requires Starves(newBreak) ==> Sidesteps(newBreak, other)
      modifies this, machine`mem, machine.pmm, machine.pmm.words
      ensures Valid() && other.Valid() && r == Break()
    {
      ghost var from, to, top := PageUp(Break()), PageUp(newBreak), PageUp(other.Break());
      ghost var lo, hi := if from < to then from else to, if from < to then to else from;
      ghost var g, m, used, was := Start(from), machine.mem, machine.pmm.used, multiset(owned);
      ghost var leaks := Starves(newBreak) && HEAP_BASE <= newBreak <= HEAP_MAX;
      ghost var n := Grows(g.free, g.room, if from < to then to - from else 0);
      ghost var f;
      r, f := SetBreak(newBreak);
      ghost var base := Base(m, leaks, dir, g.Last(), f);
      if leaks {
        LeakBeside(m, machine.dirs, machine.kernel, dir, g.Last(), f, machine.ram, used, multiset(other.owned),
                   other.dir, top);
      }
      Widened(base, machine.mem, machine.dirs, dir, lo, if from < to then from + n else hi, hi);
      SparesSameKeys(m, used, was, base, machine.mem, machine.pmm.used, multiset(owned));
      OtherKept(base, used, was, machine.mem, machine.pmm.used, multiset(owned), machine.dirs, dir, lo, hi, machine.ram,
                multiset(other.owned), other.dir, top);
    }
  }
}
