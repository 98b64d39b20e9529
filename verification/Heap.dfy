/** The kernel heap (heap.c): first fit over a list of block headers, in pages taken from the frame allocator. */
module Heap {
  import opened HeapList
  import opened Sectors
  import Pmm

  const PAGE := 4096
  const SIZE_MAX := 0xFFFF_FFFF
  const RAM_SIZE := 4096 * 1048576
  const MAX_STEPS := 1000000

  function AlignUp(x: nat): (r: nat)
    ensures x <= r < x + ALIGN && r % ALIGN == 0
  {
    (x + (ALIGN - 1)) / ALIGN * ALIGN
  }

  lemma BelowAligned(x: nat, y: nat)
    requires x % ALIGN == 0 && x < AlignUp(y)
    ensures x < y
  {
    assert x / ALIGN * ALIGN == x;
    assert x / ALIGN < (y + (ALIGN - 1)) / ALIGN;
  }

  /** `s` is the set of the `k` frames from frame number `f` on. */
  ghost predicate FrameRun(f: nat, k: nat, s: set<nat>) {
    |s| == k && forall p :: p in s <==> f <= p < f + k
  }

  lemma {:induction false} MakeRun(f: nat, k: nat) returns (s: set<nat>)
    ensures FrameRun(f, k, s)
  {
    if k == 0 {
      s := {};
    } else {
      s := MakeRun(f, k - 1);
      s := s + {f + k - 1};
    }
  }

  /** `bytes` are the bytes of the frames in `frames`. */
  ghost predicate Covers(bytes: set<nat>, frames: set<nat>) {
    forall x: nat :: x in bytes <==> x / PAGE in frames
  }

  lemma RegionCovers(owner: map<nat, nat>, frames: set<nat>, a: nat, f: nat, k: nat, run: set<nat>,
                     owner': map<nat, nat>)
    requires Covers(owner.Keys, frames) && a == PAGE * f && FrameRun(f, k, run) && frames !! run
    requires Claimed(owner, a, PAGE * k, owner')
    ensures forall x :: a <= x < a + PAGE * k ==> x !in owner
    ensures Covers(owner'.Keys, frames + run)
  {
    forall x: nat
      ensures a <= x < a + PAGE * k ==> x !in owner
      ensures x in owner' <==> x / PAGE in frames + run
    {
      assert a <= x < a + PAGE * k <==> f <= x / PAGE < f + k;
    }
  }

  lemma PageAligned(f: nat, k: nat)
    ensures PAGE * f % ALIGN == 0 && (PAGE * k - HEADER_SIZE) % ALIGN == 0
  {
    assert PAGE * f == ALIGN * (512 * f) && PAGE * k - HEADER_SIZE == ALIGN * (512 * k - 3);
  }

  /** A region of `k` fresh pages joins the arena as one free block. */
  lemma AppendRegion(hs: Headers, list: seq<nat>, head: nat, tail: nat, owner: map<nat, nat>, frames: set<nat>,
                     a: nat, f: nat, k: nat, size: nat, run: set<nat>, owner': map<nat, nat>)
    requires Wellformed(hs, list, head, tail, owner, PAGE * |frames|) && Covers(owner.Keys, frames)
    requires size == PAGE * k - HEADER_SIZE
    requires a == PAGE * f != 0 && 0 < k && FrameRun(f, k, run) && forall g :: f <= g < f + k ==> g !in frames
    requires Claimed(owner, a, PAGE * k, owner')
    ensures
      var hs' := AppendHeaders(hs, tail, a, size);
      && Wellformed(hs', list + [a], if tail == 0 then a else head, a, owner', PAGE * |frames + run|)
      && Covers(owner'.Keys, frames + run)
      && UsedOf(hs', list + [a]) == UsedOf(hs, list)
      && a in hs' && hs'[a].free && hs'[a].size == size && a !in list
      && OtherBlocks(hs, list, a, hs', list + [a])
    ensures tail != 0 ==> tail in hs && tail in list && a != tail
  {
    ListNonNull(hs, list, head, tail);
    AppendKeeps(hs, list, tail, a, size);
    PageAligned(f, k);
    assert frames !! run;
    RegionCovers(owner, frames, a, f, k, run, owner');
    assert |frames + run| == |frames| + k;
    Append(hs, list, head, tail, owner, PAGE * |frames|, a, size, owner');
    AppendUsed(hs, list, tail, a, size);
    if list != [] {
      InListHasHeader(hs, list, head, tail, |list| - 1);
    }
  }

  /** The live payloads are exactly those of the blocks in use, and each is as large as was asked for. */
  ghost predicate LiveOk(used: map<nat, nat>, live: map<nat, nat>) {
    && (forall p {:trigger PayloadOk(used, live, p)} :: p in live ==> PayloadOk(used, live, p))
    && (forall a {:trigger InUse(live, a)} :: a in used ==> InUse(live, a))
  }

  /** Payload `p` is that of a block in use, and no larger. */
  ghost predicate PayloadOk(used: map<nat, nat>, live: map<nat, nat>, p: nat)
    requires p in live
  {
    p >= HEADER_SIZE && p - HEADER_SIZE in used && live[p] <= used[p - HEADER_SIZE]
  }

  ghost predicate InUse(live: map<nat, nat>, a: nat) {
    a + HEADER_SIZE in live
  }

  lemma LiveTake(used: map<nat, nat>, live: map<nat, nat>, b: nat, size: nat, request: nat,
                 used': map<nat, nat>, live': map<nat, nat>)
    requires LiveOk(used, live) && b !in used && request <= size
    requires used' == used[b := size] && live' == live[b + HEADER_SIZE := request]
    ensures b + HEADER_SIZE !in live && LiveOk(used', live')
  {
    assert b + HEADER_SIZE in live ==> PayloadOk(used, live, b + HEADER_SIZE);
    LiveChanged(used, live, b, used', live');
  }

  /** Only block `b` and its payload differ. */
  lemma LiveChanged(used: map<nat, nat>, live: map<nat, nat>, b: nat, used': map<nat, nat>, live': map<nat, nat>)
    requires LiveOk(used, live) && (b in used' <==> b + HEADER_SIZE in live')
    requires forall a :: a != b ==> (a in used' <==> a in used) && (a in used ==> used'[a] == used[a])
    requires forall p :: p != b + HEADER_SIZE ==> (p in live' <==> p in live) && (p in live ==> live'[p] == live[p])
    requires b in used' ==> live'[b + HEADER_SIZE] <= used'[b]
    ensures LiveOk(used', live')
  {
    forall p | p in live'
      ensures PayloadOk(used', live', p)
    {
      assert p != b + HEADER_SIZE ==> PayloadOk(used, live, p);
    }
    forall a | a in used'
      ensures InUse(live', a)
    {
      assert a != b ==> InUse(live, a);
    }
  }

  lemma LiveDrop(used: map<nat, nat>, live: map<nat, nat>, b: nat, used': map<nat, nat>, live': map<nat, nat>)
    requires LiveOk(used, live) && b in used
    requires used' == used - {b} && live' == live - {b + HEADER_SIZE}
    ensures LiveOk(used', live')
  {
    LiveChanged(used, live, b, used', live');
  }

  lemma LiveResize(used: map<nat, nat>, live: map<nat, nat>, b: nat, size: nat, request: nat,
                   used': map<nat, nat>, live': map<nat, nat>)
    requires LiveOk(used, live) && b in used && request <= size
    requires used' == used[b := size] && live' == live[b + HEADER_SIZE := request]
    ensures LiveOk(used', live')
  {
    LiveChanged(used, live, b, used', live');
  }

  lemma Overflow(n: nat, m: nat)
    requires m > 0
    ensures n > SIZE_MAX / m <==> n * m > SIZE_MAX
  {
    var q := SIZE_MAX / m;
    assert SIZE_MAX == q * m + SIZE_MAX % m;
    if n > q {
      assert n * m >= (q + 1) * m;
    } else {
      assert n * m <= q * m;
    }
  }

  /** The block of a live payload. */
  lemma PayloadBlock(hs: Headers, list: seq<nat>, head: nat, tail: nat, owner: map<nat, nat>, total: nat,
                     live: map<nat, nat>, p: nat)
    requires Wellformed(hs, list, head, tail, owner, total) && LiveOk(UsedOf(hs, list), live) && p in live
    ensures p % ALIGN == 0 && p >= HEADER_SIZE && p - HEADER_SIZE in list && p - HEADER_SIZE in hs
    ensures p + live[p] <= End(hs, p - HEADER_SIZE)
    ensures forall x: nat :: p - HEADER_SIZE <= x < p + live[p] ==> x in owner
  {
    var a := p - HEADER_SIZE;
    assert PayloadOk(UsedOf(hs, list), live, p);
    assert a in list && Block(hs, owner, a) && AlignedAt(hs, a);
    PayloadAligned(a);
    forall x: nat | a <= x < p + live[p]
      ensures x in owner
    {
      assert x < End(hs, a);
    }
  }

  lemma PayloadAligned(a: nat)
    requires a % ALIGN == 0
    ensures (a + HEADER_SIZE) % ALIGN == 0
  {
  }

  /** Live payloads are 8-aligned, lie inside pages of the arena, and are pairwise disjoint, headers included. */
  lemma LivePayloads(hs: Headers, list: seq<nat>, head: nat, tail: nat, owner: map<nat, nat>, frames: set<nat>,
                     live: map<nat, nat>, p: nat, q: nat)
    requires Wellformed(hs, list, head, tail, owner, PAGE * |frames|) && Covers(owner.Keys, frames)
    requires LiveOk(UsedOf(hs, list), live) && p in live && q in live
    ensures p % ALIGN == 0 && p >= HEADER_SIZE
    ensures forall x :: p - HEADER_SIZE <= x < p + live[p] ==> x / PAGE in frames
    ensures p != q ==> p + live[p] <= q - HEADER_SIZE || q + live[q] <= p - HEADER_SIZE
  {
    PayloadBlock(hs, list, head, tail, owner, PAGE * |frames|, live, p);
    PayloadBlock(hs, list, head, tail, owner, PAGE * |frames|, live, q);
    forall x: nat | p - HEADER_SIZE <= x < p + live[p]
      ensures x / PAGE in frames
    {
      assert x in owner.Keys;
    }
    if p != q {
      BlocksDisjoint(hs, list, owner, p - HEADER_SIZE, q - HEADER_SIZE);
    }
  }

  /**
   No header overlaps a live payload, so writes to headers leave the bytes of payloads alone, and the other way round.
   */
  lemma HeadersOutside(hs: Headers, list: seq<nat>, head: nat, tail: nat, owner: map<nat, nat>, total: nat,
                       live: map<nat, nat>, b: nat, p: nat)
    requires Wellformed(hs, list, head, tail, owner, total) && LiveOk(UsedOf(hs, list), live) && b in list && p in live
    ensures b + HEADER_SIZE <= p || p + live[p] <= b
  {
    PayloadBlock(hs, list, head, tail, owner, total, live, p);
    if b != p - HEADER_SIZE {
      BlocksDisjoint(hs, list, owner, p - HEADER_SIZE, b);
    }
  }

  /** `list'` is what is left of the list when block `b` is freed and joined with its free neighbours. */
  ghost predicate FreedList(hs: Headers, list: seq<nat>, b: nat, list': seq<nat>) {
    b in hs && exists i: nat :: i < |list| && list[i] == b && list' == Coalesced(hs[b := hs[b].(free := true)], list, i)
  }

  // ---- when an allocation succeeds ----

  ghost predicate Fits(hs: Headers, a: nat, n: nat) {
    a in hs && hs[a].free && hs[a].size >= n
  }

  /** Block `i` of the list fits, and the search gets that far. */
  ghost predicate FitAt(hs: Headers, list: seq<nat>, n: nat, i: nat) {
    i < |list| && i < MAX_STEPS && Fits(hs, list[i], n)
  }

  /** Block `a` is the first one of the list that fits. */
  ghost predicate FirstFit(hs: Headers, list: seq<nat>, n: nat, a: nat) {
    exists i: nat :: FitAt(hs, list, n, i) && list[i] == a && forall j: nat :: j < i ==> !FitAt(hs, list, n, j)
  }

  /** The lowest free frame is `f`, and the `k` frames from it on are free. */
  ghost predicate GapAt(used: seq<bool>, f: nat, k: nat) {
    Pmm.Lowest(used, f) && f + k <= |used| && forall g :: f <= g < f + k ==> !used[g]
  }

  ghost predicate Gap(used: seq<bool>, k: nat) {
    exists f: nat :: GapAt(used, f, k)
  }

  /** `used'` is `used` with the `k` frames from `f` on taken. */
  ghost predicate WithRun(used: seq<bool>, f: nat, k: nat, used': seq<bool>) {
    |used'| == |used| && forall g :: 0 <= g < |used| ==> (used'[g] <==> used[g] || f <= g < f + k)
  }

  /** The next frame that the allocator gives continues the gap exactly if the gap goes on. */
  lemma GapTurn(used: seq<bool>, f: nat, k: nat, used': seq<bool>, found: bool, b: nat)
    requires GapAt(used, f, k) && WithRun(used, f, k, used')
    requires if found then Pmm.Lowest(used', b) else forall g :: 0 <= g < |used'| ==> used'[g]
    ensures GapAt(used, f, k + 1) <==> found && b == f + k
    ensures found ==> f + k <= b
  {
    assert forall g :: 0 <= g < f + k ==> used'[g];
    if GapAt(used, f, k + 1) {
      assert !used'[f + k];
    }
    if found {
      assert !used[b];
    }
  }

  lemma GapExactly(used: seq<bool>, f: nat, got: nat, wanted: nat)
    requires GapAt(used, f, got) && got <= wanted && (got < wanted ==> !GapAt(used, f, got + 1))
    ensures Gap(used, wanted) <==> got == wanted
  {
    forall g: nat | GapAt(used, g, wanted)
      ensures g == f && got == wanted
    {
      assert g == f;
    }
  }

  /** The frames of the arena that are new were free, and no other frame changed hands. */
  ghost predicate FramesAdded(used: seq<bool>, frames: set<nat>, used': seq<bool>, frames': set<nat>) {
    && |used'| == |used| && frames <= frames'
    && (forall f :: f in frames' && f !in frames ==> f < |used| && !used[f])
    && forall g :: 0 <= g < |used| ==> (used'[g] <==> used[g] || (g in frames' && g !in frames))
  }

  /** How many pages hold a block of `n` bytes and its header. */
  function PagesFor(n: nat): (k: nat)
    ensures 0 < k
  {
    (HEADER_SIZE + n + PAGE - 1) / PAGE
  }

  lemma PagesHold(n: nat, k: nat)
    ensures PAGE * k >= HEADER_SIZE + n <==> k >= PagesFor(n)
  {
  }

  /** The payload of the block that those pages become. */
  function RegionFor(n: nat): nat {
    PAGE * PagesFor(n) - HEADER_SIZE
  }

  lemma RunAdded(used: seq<bool>, f: nat, k: nat, used': seq<bool>, frames: set<nat>, frames': set<nat>)
    requires GapAt(used, f, k) && WithRun(used, f, k, used')
    requires forall g: nat :: g in frames' <==> g in frames || f <= g < f + k
    requires forall g :: g in frames ==> g < |used| && used[g]
    ensures FramesAdded(used, frames, used', frames')
  {
  }

  /** Frames for a block of `n` bytes follow the lowest free one, and sizes stay within 32 bits. */
  ghost predicate CanGrow(used: seq<bool>, n: nat) {
    HEADER_SIZE + n <= SIZE_MAX - (PAGE - 1) && Gap(used, PagesFor(n))
  }

  /** A block of the list fits, or else the list is searched to its end and grows. */
  ghost predicate CanAlloc(hs: Headers, list: seq<nat>, used: seq<bool>, size: nat) {
    && 0 < size <= SIZE_MAX - (ALIGN - 1)
    && var n := AlignUp(size);
       (exists i: nat :: FitAt(hs, list, n, i)) || (|list| <= MAX_STEPS && CanGrow(used, n))
  }

  /**
   Block `a` was found for `n` bytes and cut to size: the first one of the list that fits, or else a new one in as many
   pages as it takes.
   */
  ghost predicate Placed(hs: Headers, list: seq<nat>, n: nat, a: nat, hs': Headers, list': seq<nat>) {
    if exists i: nat :: FitAt(hs, list, n, i)
    then FirstFit(hs, list, n, a) && Cut(hs, list, a, SizeAt(hs, a), n, hs', list')
    else a !in list && Cut(hs, list, a, RegionFor(n), n, hs', list')
  }

  /** A new block was placed, and then block `b` freed. */
  ghost predicate Replaced(hs: Headers, list: seq<nat>, n: nat, a: nat, b: nat, list': seq<nat>) {
    exists hs1: Headers, list1: seq<nat> :: Placed(hs, list, n, a, hs1, list1) && FreedList(hs1, list1, b, list')
  }

  ghost function SizeAt(hs: Headers, a: int): nat {
    if a in hs then hs[a].size else 0
  }

  /** Blocks `k` and `k + 1` of the list are free and lie next to each other in memory. */
  ghost predicate Joins(hs: Headers, list: seq<nat>, k: int) {
    && 0 <= k && k + 1 < |list| && list[k] in hs && list[k + 1] in hs
    && hs[list[k]].free && hs[list[k + 1]].free && End(hs, list[k]) == list[k + 1]
  }

  /** The list after block `i` was joined with the neighbours it joins. */
  ghost function Coalesced(hs: Headers, list: seq<nat>, i: nat): seq<nat> {
    var rest := if Joins(hs, list, i) then RemoveAfter(list, i) else list;
    if Joins(hs, list, i - 1) && i < |rest| then RemoveAfter(rest, i - 1) else rest
  }

  lemma LiveIff(hs: Headers, list: seq<nat>, live: map<nat, nat>, a: nat)
    requires LiveOk(UsedOf(hs, list), live)
    ensures a + HEADER_SIZE in live <==> a in list && a in hs && !hs[a].free
  {
    assert a in UsedOf(hs, list) ==> InUse(live, a);
    assert a + HEADER_SIZE in live ==> PayloadOk(UsedOf(hs, list), live, a + HEADER_SIZE);
  }

  lemma NotLive(hs: Headers, list: seq<nat>, live: map<nat, nat>, ptr: nat)
    requires LiveOk(UsedOf(hs, list), live) && Aligned(hs, list) && (ptr == 0 || ptr % ALIGN != 0)
    ensures ptr !in live
  {
    forall p | p in live
      ensures p > 0 && p % ALIGN == 0
    {
      assert PayloadOk(UsedOf(hs, list), live, p);
      assert p - HEADER_SIZE in list && AlignedAt(hs, p - HEADER_SIZE);
      PayloadAligned(p - HEADER_SIZE);
    }
  }

  /** The `n` bytes at `p` in `ram` are the `n` bytes at `q` in `ram'`. */
  ghost predicate SameBytes(ram: seq<byte>, p: nat, ram': seq<byte>, q: nat, n: nat) {
    p + n <= |ram| && q + n <= |ram'| && ram[p..p + n] == ram'[q..q + n]
  }

  /** Every live payload but `except` still holds what it held. */
  ghost predicate OthersKept(ram: seq<byte>, ram': seq<byte>, live: map<nat, nat>, except: nat) {
    forall q :: q in live && q != except ==> SameBytes(ram, q, ram', q, live[q])
  }

  /** What realloc may do to the live payloads and their contents. */
  ghost predicate Reallocated(live: map<nat, nat>, ram: seq<byte>, ptr: nat, size: nat, p: nat,
                              live': map<nat, nat>, ram': seq<byte>) {
    && OthersKept(ram, ram', live, ptr)
    && (p == 0 ==> ram' == ram && live' == if size == 0 then live - {ptr} else live)
    && (p != 0 && ptr == 0 ==> ram' == ram && p !in live && live' == live[p := size])
    && (p != 0 && ptr != 0 ==>
      && ptr in live
      && SameBytes(ram, ptr, ram', p, if size < live[ptr] then size else live[ptr])
      && if p == ptr then ram' == ram && live' == live[p := size] else p !in live && live' == live[p := size] - {ptr})
  }

  /**
   What realloc does to the blocks: the block is cut to size where it stands, or a new one takes its place; a failure
   leaves all of them as they are.
   */
  ghost predicate ResizedBlocks(hs: Headers, list: seq<nat>, ptr: nat, size: nat, p: nat, hs': Headers,
                                list': seq<nat>) {
    if p == 0 then size > 0 ==> OnlyGrown(hs, list, hs', list')
    else
      && p >= HEADER_SIZE
      && var a, n := p - HEADER_SIZE, AlignUp(size);
         if ptr == 0 then Placed(hs, list, n, a, hs', list')
         else if p == ptr then Cut(hs, list, a, SizeAt(hs, a), n, hs', list')
         else ptr >= HEADER_SIZE && Replaced(hs, list, n, a, ptr - HEADER_SIZE, list')
  }

  lemma ReallocatedInPlace(live: map<nat, nat>, ram: seq<byte>, ptr: nat, size: nat)
    requires ptr != 0 && ptr in live && forall q :: q in live ==> q + live[q] <= |ram|
    ensures Reallocated(live, ram, ptr, size, ptr, live[ptr := size], ram)
  {
    Unmoved(live, ram, ptr);
  }

  lemma Unmoved(live: map<nat, nat>, ram: seq<byte>, ptr: nat)
    requires forall q :: q in live ==> q + live[q] <= |ram|
    ensures OthersKept(ram, ram, live, ptr)
    ensures ptr !in live ==> live - {ptr} == live
  {
  }

  /** `x` is `n` in 32 bits. */
  ghost predicate Wraps(x: nat, n: nat) {
    x == n % (SIZE_MAX + 1)
  }

  method Add32(x: nat, y: nat, ghost n: nat, ghost sum: nat) returns (r: nat)
    requires Wraps(x, n) && sum == n + y
    ensures Wraps(r, sum)
  {
    r := (x + y) % (SIZE_MAX + 1);
  }

  /** All of `live` lies in memory and apart from the `n` bytes at `p`. */
  ghost predicate Apart(live: map<nat, nat>, p: nat, n: nat) {
    && p + n <= RAM_SIZE
    && forall q :: q in live ==> q + live[q] <= RAM_SIZE && (p + n <= q || q + live[q] <= p)
  }

  /** A new payload shares no byte with the payloads that were live before. */
  lemma NewIsApart(hs: Headers, list: seq<nat>, head: nat, tail: nat, owner: map<nat, nat>, frames: set<nat>,
                   live: map<nat, nat>, live': map<nat, nat>, p: nat, size: nat)
    requires Wellformed(hs, list, head, tail, owner, PAGE * |frames|) && Covers(owner.Keys, frames)
    requires forall f :: f in frames ==> f < Pmm.MAX_BLOCKS
    requires LiveOk(UsedOf(hs, list), live') && p !in live && live' == live[p := size]
    ensures Apart(live, p, size)
  {
    LivePayloads(hs, list, head, tail, owner, frames, live', p, p);
    InMemory(frames, p, size);
    forall q | q in live
      ensures q + live[q] <= RAM_SIZE && (p + size <= q || q + live[q] <= p)
    {
      LivePayloads(hs, list, head, tail, owner, frames, live', p, q);
      LivePayloads(hs, list, head, tail, owner, frames, live', q, q);
      InMemory(frames, q, live[q]);
    }
  }

  lemma InMemory(frames: set<nat>, p: nat, n: nat)
    requires forall f :: f in frames ==> f < Pmm.MAX_BLOCKS
    requires p >= HEADER_SIZE && forall x :: p - HEADER_SIZE <= x < p + n ==> x / PAGE in frames
    ensures p + n <= RAM_SIZE
  {
    var x := p + n - 1;
    assert p - HEADER_SIZE <= x && x / PAGE in frames;
  }

  /** A copy into space that no live payload reaches into. */
  lemma CopyApart(ram: seq<byte>, live: map<nat, nat>, p: nat, ptr: nat, n: nat, size: nat)
    requires |ram| == RAM_SIZE && Apart(live, p, size) && n <= size
    requires ptr in live && live[ptr] <= n && ptr + n <= |ram|
    ensures var ram' := Overwrite(ram, p, ram[ptr..ptr + n]);
      SameBytes(ram, ptr, ram', p, live[ptr]) && OthersKept(ram, ram', live, ptr)
  {
    var m, ram' := live[ptr], Overwrite(ram, p, ram[ptr..ptr + n]);
    CopiedBytes(ram, p, ptr, n, m);
    forall q | q in live && q != ptr
      ensures SameBytes(ram, q, ram', q, live[q])
    {
      BytesBeside(ram, p, ram[ptr..ptr + n], q, live[q]);
    }
  }

  lemma CopiedBytes(ram: seq<byte>, p: nat, ptr: nat, n: nat, m: nat)
    requires m <= n && ptr + n <= |ram| && p + n <= |ram|
    ensures SameBytes(ram, ptr, Overwrite(ram, p, ram[ptr..ptr + n]), p, m)
  {
    var src := ram[ptr..ptr + n];
    var x, y := ram[ptr..ptr + m], Overwrite(ram, p, src)[p..p + m];
    forall k | 0 <= k < m
      ensures x[k] == y[k]
    {
      assert y[k] == Overwrite(ram, p, src)[p + k] == src[k];
    }
  }

  lemma BytesBeside(ram: seq<byte>, p: nat, src: seq<byte>, q: nat, m: nat)
    requires p + |src| <= |ram| && q + m <= |ram| && (p + |src| <= q || q + m <= p)
    ensures SameBytes(ram, q, Overwrite(ram, p, src), q, m)
  {
  }

  class Arena {
    const pmm: Pmm.FrameAllocator
    var head: nat
    var tail: nat
    var hdr: Headers
    var ram: seq<byte>

    ghost var list: seq<nat>
    ghost var owner: map<nat, nat>
    ghost var frames: set<nat>
    ghost var live: map<nat, nat>

    ghost predicate Backed()
      reads this, pmm, pmm.words
    {
      && pmm.Ready()
      && (forall f :: f in frames ==> 0 < f < Pmm.MAX_BLOCKS && pmm.used[f])
      && Covers(owner.Keys, frames)
    }

    ghost predicate Structure()
      reads this
    {
      Wellformed(hdr, list, head, tail, owner, PAGE * |frames|)
    }

    ghost predicate Valid()
      reads this, pmm, pmm.words
    {
      Structure() && LiveOk(UsedOf(hdr, list), live) && Backed() && |ram| == RAM_SIZE
    }

    constructor (pmm: Pmm.FrameAllocator)
      requires pmm.Ready()
      ensures Valid() && this.pmm == pmm && live == map[] && frames == {}
    {
      this.pmm := pmm;
      head, tail, hdr := 0, 0, map[];
      ram := seq(RAM_SIZE, _ => 0);
      list, owner, frames, live := [], map[], {}, map[];
    }

    /** The rest after a cut must hold a header and at least eight bytes. */
    static predicate CanSplit(blockSize: nat, size: nat) {
      size <= blockSize && blockSize - size >= HEADER_SIZE + ALIGN
    }

    /** Cuts block `b` after `size` bytes if what is left is worth a block of its own. */
    method SplitBlock(b: nat, size: nat, ghost i: nat)
      requires Structure() && i < |list| && list[i] == b && b in hdr
      requires size % ALIGN == 0
      modifies this`tail, this`hdr, this`list, this`owner
      ensures Structure() && owner.Keys == old(owner.Keys)
      ensures i < |list| && list[i] == b && b in hdr && hdr[b].free == old(hdr[b].free)
      ensures hdr[b].size == if CanSplit(old(hdr)[b].size, size) then size else old(hdr)[b].size
      ensures list ==
        if CanSplit(old(hdr)[b].size, size) then InsertAfter(old(list), i, b + HEADER_SIZE + size) else old(list)
      ensures size <= old(hdr)[b].size ==> Cut(old(hdr), old(list), b, old(hdr)[b].size, size, hdr, list)
      ensures UsedOf(hdr, list) ==
        if old(hdr[b].free) then old(UsedOf(hdr, list)) else old(UsedOf(hdr, list))[b := hdr[b].size]
    {
      if size > hdr[b].size || hdr[b].size - size < HEADER_SIZE + ALIGN {
        assert b in list;
        ListNonNull(hdr, list, head, tail);
        if size <= hdr[b].size {
          NotCut(hdr, list, b, size);
        }
        assert !hdr[b].free ==> UsedOf(hdr, list)[b := hdr[b].size] == UsedOf(hdr, list);
        return;
      }
      CutBlock(b, size, i);
    }

    method CutBlock(b: nat, size: nat, ghost i: nat)
      requires Structure() && i < |list| && list[i] == b && b in hdr
      requires size % ALIGN == 0 && CanSplit(hdr[b].size, size)
      modifies this`tail, this`hdr, this`list, this`owner
      ensures Structure() && owner.Keys == old(owner.Keys)
      ensures i < |list| && list[i] == b && b in hdr && hdr[b].free == old(hdr[b].free) && hdr[b].size == size
      ensures list == InsertAfter(old(list), i, b + HEADER_SIZE + size)
      ensures Cut(old(hdr), old(list), b, old(hdr)[b].size, size, hdr, list)
      ensures UsedOf(hdr, list) ==
        if old(hdr[b].free) then old(UsedOf(hdr, list)) else old(UsedOf(hdr, list))[b := size]
    {
      InListHasHeader(hdr, list, head, tail, i);
      Split(hdr, list, head, tail, owner, PAGE * |frames|, i, size);
      SplitUsed(hdr, list, i, size);
      ListNonNull(hdr, list, head, tail);
      SplitCuts(hdr, list, i, size);
      ghost var hs := hdr;
      var newBlock := b + HEADER_SIZE + size;
      var next := hdr[b].next;
      hdr := hdr[newBlock := Header(hdr[b].size - size - HEADER_SIZE, true, next, b)];
      if next != 0 {
        hdr := hdr[next := hdr[next].(prev := newBlock)];
      } else {
        tail := newBlock;
      }
      hdr := hdr[b := hdr[b].(next := newBlock, size := size)];
      assert hdr == SplitHeaders(hs, b, size);
      list, owner := InsertAfter(list, i, newBlock), SplitOwner(owner, b, newBlock);
    }

    /** The block at list position `i` swallows the one after it. */
    method MergeNext(b: nat, ghost i: nat)
      requires Structure() && i + 1 < |list| && list[i] == b && b in hdr && hdr[b].next in hdr
      requires hdr[b].free && hdr[hdr[b].next].free && End(hdr, b) == hdr[b].next
      modifies this`tail, this`hdr, this`list, this`owner
      ensures Structure() && owner.Keys == old(owner.Keys) && UsedOf(hdr, list) == old(UsedOf(hdr, list))
      ensures list == RemoveAfter(old(list), i) && b in hdr && hdr[b].free && hdr[b].prev == old(hdr[b].prev)
      ensures hdr == MergeHeaders(old(hdr), b, old(hdr[b].next))
    {
      InListHasHeader(hdr, list, head, tail, i);
      InListHasHeader(hdr, list, head, tail, i + 1);
      var dead := hdr[b].next;
      Merge(hdr, list, head, tail, owner, PAGE * |frames|, i);
      MergeUsed(hdr, list, i);
      ghost var hs := hdr;
      var next := hdr[dead].next;
      hdr := hdr[b := hdr[b].(size := hdr[b].size + HEADER_SIZE + hdr[dead].size, next := next)];
      if next != 0 {
        hdr := hdr[next := hdr[next].(prev := b)];
      } else {
        tail := b;
      }
      assert hdr == MergeHeaders(hs, b, dead);
      list, owner := RemoveAfter(list, i), MergeOwner(owner, b, dead);
    }

    /** Joins a free block with the one behind it. */
    method JoinNext(b: nat, ghost i: nat)
      requires Structure() && i < |list| && list[i] == b && b in hdr && hdr[b].free
      modifies this`tail, this`hdr, this`list, this`owner
      ensures Structure() && owner.Keys == old(owner.Keys) && UsedOf(hdr, list) == old(UsedOf(hdr, list))
      ensures list == if Joins(old(hdr), old(list), i) then RemoveAfter(old(list), i) else old(list)
      ensures i < |list| && list[i] == b && b in hdr && hdr[b].free
      ensures i > 0 ==> list[i - 1] == old(list)[i - 1] && SameBlock(old(hdr), hdr, list[i - 1])
    {
      InListHasHeader(hdr, list, head, tail, i);
      if i > 0 {
        InListHasHeader(hdr, list, head, tail, i - 1);
      }
      var next := hdr[b].next;
      if next != 0 && hdr[next].free && b + HEADER_SIZE + hdr[b].size == next {
        MergeNext(b, i);
      }
    }

    /** Joins a free block with the one in front of it. */
    method JoinPrev(b: nat, ghost i: nat)
      requires Structure() && i < |list| && list[i] == b && b in hdr && hdr[b].free
      modifies this`tail, this`hdr, this`list, this`owner
      ensures Structure() && owner.Keys == old(owner.Keys) && UsedOf(hdr, list) == old(UsedOf(hdr, list))
      ensures list == if Joins(old(hdr), old(list), i - 1) then RemoveAfter(old(list), i - 1) else old(list)
    {
      InListHasHeader(hdr, list, head, tail, i);
      if i > 0 {
        InListHasHeader(hdr, list, head, tail, i - 1);
      }
      var prev := hdr[b].prev;
      if prev != 0 && hdr[prev].free && prev + HEADER_SIZE + hdr[prev].size == b {
        MergeNext(prev, i - 1);
      }
    }

    /** Joins a free block with the free blocks that lie next to it in the list and in memory. */
    method Coalesce(b: nat, ghost i: nat)
      requires Structure() && i < |list| && list[i] == b && b in hdr && hdr[b].free
      modifies this`tail, this`hdr, this`list, this`owner
      ensures Structure() && owner.Keys == old(owner.Keys) && UsedOf(hdr, list) == old(UsedOf(hdr, list))
      ensures list == Coalesced(old(hdr), old(list), i)
    {
      JoinNext(b, i);
      assert Joins(hdr, list, i - 1) <==> Joins(old(hdr), old(list), i - 1);
      JoinPrev(b, i);
    }

    /** Frames `f` up to `f + k` are in use and are none of the arena's. */
    ghost predicate Taken(f: nat, k: nat)
      reads this, pmm, pmm.words
    {
      && Backed() && 0 < f && f + k <= Pmm.MAX_BLOCKS
      && forall g :: f <= g < f + k ==> g !in frames && pmm.used[g]
    }

    /** As many consecutive pages as the allocator gives in a row, at most `wanted`; 0 if there is none. */
    method TakePages(wanted: nat) returns (start: nat, got: nat, ghost f: nat)
      requires Backed() && 0 < wanted
      modifies pmm, pmm.words
      ensures Backed()
      ensures start == 0 <==> got == 0
      ensures start != 0 ==> got <= wanted && start == PAGE * f && Taken(f, got)
      ensures if got == 0 then pmm.used == old(pmm.used)
              else GapAt(old(pmm.used), f, got) && WithRun(old(pmm.used), f, got, pmm.used)
      ensures got == wanted <==> Gap(old(pmm.used), wanted)
    {
      ghost var found, bit;
      start, found, bit := pmm.Alloc();
      if start == 0 {
        return 0, 0, 0;
      }
      f := bit;
      var regionEnd := start + PAGE;
      got := 1;
      while got < wanted
        invariant 1 <= got <= wanted && regionEnd == start + PAGE * got && start == PAGE * f
        invariant Taken(f, got) && GapAt(old(pmm.used), f, got)
        invariant WithRun(old(pmm.used), f, got, pmm.used)
        decreases wanted - got
      {
        ghost var was := pmm.used;
        var page;
        page, found, bit := pmm.Alloc();
        GapTurn(old(pmm.used), f, got, was, found, bit);
        if page == 0 {
          break;
        }
        if page == regionEnd {
          regionEnd := regionEnd + PAGE;
          got := got + 1;
        } else {
          pmm.Free(page);
          break;
        }
      }
      GapExactly(old(pmm.used), f, got, wanted);
    }

    /** Adds one free block of fresh pages to the arena; it may be smaller than `minSize`. */
    method GrowHeap(minSize: nat) returns (b: nat)
      requires Structure() && Backed()
      modifies this, pmm, pmm.words
      ensures Structure() && Backed() && ram == old(ram) && live == old(live)
      ensures UsedOf(hdr, list) == old(UsedOf(hdr, list))
      ensures b == 0 ==> hdr == old(hdr) && list == old(list) && frames == old(frames)
      ensures b != 0 ==> list == old(list) + [b] && b in hdr && hdr[b].free && b !in old(list)
      ensures b != 0 ==> OtherBlocks(old(hdr), old(list), b, hdr, list)
      ensures b != 0 && SizeAt(hdr, b) >= minSize ==> SizeAt(hdr, b) == RegionFor(minSize)
      ensures FramesAdded(old(pmm.used), old(frames), pmm.used, frames)
      ensures b != 0 && SizeAt(hdr, b) >= minSize <==> CanGrow(old(pmm.used), minSize)
    {
      if minSize > SIZE_MAX - HEADER_SIZE {
        return 0;
      }
      var needed := (HEADER_SIZE + minSize) % (SIZE_MAX + 1);
      if needed > SIZE_MAX - (PAGE - 1) {
        return 0;
      }
      var start, got, f := TakePages((needed + PAGE - 1) % (SIZE_MAX + 1) / PAGE);
      if start == 0 {
        return 0;
      }
      PagesHold(minSize, got);
      AddRegion(start, got, f);
      RunAdded(old(pmm.used), f, got, pmm.used, old(frames), frames);
      return start;
    }

    /** Writes the header of a free block at `a` and links it in at the end. */
    method LinkLast(a: nat, size: nat)
      requires tail != 0 ==> tail in hdr
      modifies this`head, this`tail, this`hdr
      ensures hdr == AppendHeaders(old(hdr), old(tail), a, size)
      ensures head == (if old(tail) == 0 then a else old(head)) && tail == a
    {
      hdr := hdr[a := Header(size, true, 0, tail)];
      if tail != 0 {
        hdr := hdr[tail := hdr[tail].(next := a)];
      } else {
        head := a;
      }
      tail := a;
    }

    method AddRegion(a: nat, k: nat, ghost f: nat)
      requires Structure() && a == PAGE * f && 0 < k && Taken(f, k)
      modifies this`head, this`tail, this`hdr, this`list, this`owner, this`frames
      ensures Structure() && Backed()
      ensures UsedOf(hdr, list) == old(UsedOf(hdr, list))
      ensures list == old(list) + [a] && a !in old(list)
      ensures a in hdr && hdr[a].free && hdr[a].size == PAGE * k - HEADER_SIZE
      ensures OtherBlocks(old(hdr), old(list), a, hdr, list)
      ensures forall g: nat :: g in frames <==> g in old(frames) || f <= g < f + k
    {
      ghost var run := MakeRun(f, k);
      ghost var claimed := Claim(owner, a, PAGE * k);
      var size := PAGE * k - HEADER_SIZE;
      AppendRegion(hdr, list, head, tail, owner, frames, a, f, k, size, run, claimed);
      LinkLast(a, size);
      list, owner, frames := list + [a], claimed, frames + run;
    }

    /** The first block of the list that is free and large enough, or 0. The search gives up after a million blocks. */
    method FindFit(size: nat) returns (b: nat, gaveUp: bool, ghost i: nat)
      requires Structure()
      ensures b != 0 ==> FitAt(hdr, list, size, i) && list[i] == b && FirstFit(hdr, list, size, b)
      ensures b == 0 ==> forall j: nat :: !FitAt(hdr, list, size, j)
      ensures gaveUp <==> b == 0 && |list| > MAX_STEPS
    {
      var cur, steps := head, 0;
      i := 0;
      ListNonNull(hdr, list, head, tail);
      while cur != 0
        invariant i == steps <= |list| && i <= MAX_STEPS && cur == At(list, i)
        invariant forall j: nat :: j < i ==> !FitAt(hdr, list, size, j)
        decreases |list| - i
      {
        InListHasHeader(hdr, list, head, tail, i);
        steps := steps + 1;
        if steps > MAX_STEPS {
          return 0, true, i;
        }
        if hdr[cur].free && hdr[cur].size >= size {
          assert FitAt(hdr, list, size, i);
          return cur, false, i;
        }
        assert !FitAt(hdr, list, size, i);
        cur := hdr[cur].next;
        i := i + 1;
      }
      return 0, false, i;
    }

    /** Cuts a free block to size and hands out its payload. */
    method Take(b: nat, size: nat, ghost request: nat, ghost i: nat) returns (p: nat)
      requires Valid() && i < |list| && list[i] == b && b in hdr && hdr[b].free
      requires size % ALIGN == 0 && request <= size <= hdr[b].size
      modifies this`tail, this`hdr, this`list, this`owner, this`live
      ensures Valid() && p == b + HEADER_SIZE
      ensures p !in old(live) && live == old(live)[p := request]
      ensures Cut(old(hdr), old(list), b, old(hdr)[b].size, size, hdr, list)
    {
      assert b !in UsedOf(hdr, list);
      SplitBlock(b, size, i);
      assert b in list;
      ghost var used := UsedOf(hdr, list);
      SetFree(hdr, list, head, tail, owner, PAGE * |frames|, b, false);
      CutMarked(old(hdr), old(list), b, old(hdr)[b].size, size, hdr, list, false);
      hdr := hdr[b := hdr[b].(free := false)];
      p := b + HEADER_SIZE;
      live := live[p := request];
      LiveTake(used, old(live), b, hdr[b].size, request, UsedOf(hdr, list), live);
    }

    /** First fit, else new pages. On failure the arena may have gained a free block. */
    method Alloc(size: nat) returns (p: nat)
      requires Valid() && size <= SIZE_MAX
      modifies this, pmm, pmm.words
      ensures Valid() && ram == old(ram)
      ensures p == 0 ==> live == old(live)
      ensures p != 0 ==> p !in old(live) && live == old(live)[p := size]
      ensures p != 0 <==> CanAlloc(old(hdr), old(list), old(pmm.used), size)
      ensures p != 0 ==> p >= HEADER_SIZE && Placed(old(hdr), old(list), AlignUp(size), p - HEADER_SIZE, hdr, list)
      ensures p == 0 ==> OnlyGrown(old(hdr), old(list), hdr, list)
      ensures FramesAdded(old(pmm.used), old(frames), pmm.used, frames)
    {
      ListNonNull(hdr, list, head, tail);
      if size == 0 || size > SIZE_MAX - (ALIGN - 1) {
        return 0;
      }
      var aligned := AlignUp(size);
      var cur, gaveUp, i := FindFit(aligned);
      if gaveUp {
        return 0;
      }
      if cur != 0 {
        p := Take(cur, aligned, size, i);
        return;
      }
      p := AllocFresh(aligned, size);
    }

    /** The payload of a block in new pages. */
    method AllocFresh(aligned: nat, ghost size: nat) returns (p: nat)
      requires Valid() && size <= aligned && aligned % ALIGN == 0
      modifies this, pmm, pmm.words
      ensures Valid() && ram == old(ram)
      ensures p == 0 ==> live == old(live)
      ensures p != 0 ==> p !in old(live) && live == old(live)[p := size]
      ensures p != 0 <==> CanGrow(old(pmm.used), aligned)
      ensures p != 0 ==> p >= HEADER_SIZE && var a := p - HEADER_SIZE;
        a !in old(list) && Cut(old(hdr), old(list), a, RegionFor(aligned), aligned, hdr, list)
      ensures p == 0 ==> OnlyGrown(old(hdr), old(list), hdr, list)
      ensures FramesAdded(old(pmm.used), old(frames), pmm.used, frames)
    {
      ListNonNull(hdr, list, head, tail);
      var b := GrowHeap(aligned);
      if b == 0 {
        return 0;
      }
      if hdr[b].size < aligned {
        return 0;
      }
      ghost var grown := hdr;
      p := Take(b, aligned, size, |list| - 1);
      CutLast(old(hdr), old(list), grown, b, RegionFor(aligned), aligned, hdr, list);
    }

    /** What heap_arena_free and heap_arena_realloc can be given: anything with a header still in the list, or junk
        that the null and alignment tests catch. */
    ghost predicate Known(ptr: nat)
      reads this
    {
      ptr == 0 || ptr % ALIGN != 0 || (ptr >= HEADER_SIZE && ptr - HEADER_SIZE in list)
    }

    /** Gives a payload back. Null, misaligned and already free pointers are ignored. */
    method Free(ptr: nat)
      requires Valid() && Known(ptr)
      modifies this`tail, this`hdr, this`list, this`owner, this`live
      ensures Valid()
      ensures live == if ptr in old(live) then old(live) - {ptr} else old(live)
      ensures ptr in old(live) ==> ptr >= HEADER_SIZE && FreedList(old(hdr), old(list), ptr - HEADER_SIZE, list)
      ensures ptr !in old(live) ==> hdr == old(hdr) && list == old(list)
    {
      LiveIffUsed(ptr);
      if ptr == 0 || ptr % ALIGN != 0 {
        return;
      }
      var block := ptr - HEADER_SIZE;
      if hdr[block].free {
        return;
      }
      Release(block);
    }

    /** A pointer that passes the null and alignment tests is live exactly if its header says so. */
    lemma LiveIffUsed(ptr: nat)
      requires Valid() && (Known(ptr) || ptr in live)
      ensures Known(ptr)
      ensures ptr == 0 || ptr % ALIGN != 0 ==> ptr !in live
      ensures ptr != 0 && ptr % ALIGN == 0 ==>
        && ptr >= HEADER_SIZE && ptr - HEADER_SIZE in hdr && ptr - HEADER_SIZE in list
        && (ptr in live <==> !hdr[ptr - HEADER_SIZE].free)
        && (ptr in live ==> live[ptr] <= hdr[ptr - HEADER_SIZE].size)
    {
      assert ptr in live ==> PayloadOk(UsedOf(hdr, list), live, ptr);
      if ptr == 0 || ptr % ALIGN != 0 {
        NotLive(hdr, list, live, ptr);
      } else {
        var i := IndexOf(list, ptr - HEADER_SIZE);
        InListHasHeader(hdr, list, head, tail, i);
        LiveIff(hdr, list, live, ptr - HEADER_SIZE);
      }
    }

    method Release(block: nat)
      requires Valid() && block in list && block in hdr && !hdr[block].free
      modifies this`tail, this`hdr, this`list, this`owner, this`live
      ensures Valid() && live == old(live) - {block + HEADER_SIZE}
      ensures FreedList(old(hdr), old(list), block, list)
    {
      ghost var used := UsedOf(hdr, list);
      MarkFree(block);
      live := live - {block + HEADER_SIZE};
      LiveDrop(used, old(live), block, UsedOf(hdr, list), live);
    }

    /** Marks a block as free and joins it with its neighbours. */
    method MarkFree(block: nat)
      requires Structure() && block in list && block in hdr && !hdr[block].free
      modifies this`tail, this`hdr, this`list, this`owner
      ensures Structure() && owner.Keys == old(owner.Keys)
      ensures UsedOf(hdr, list) == old(UsedOf(hdr, list)) - {block}
      ensures FreedList(old(hdr), old(list), block, list)
    {
      ghost var i := IndexOf(list, block);
      SetFree(hdr, list, head, tail, owner, PAGE * |frames|, block, true);
      hdr := hdr[block := hdr[block].(free := true)];
      Coalesce(block, i);
    }

    /** A zeroed array, unless its size overflows 32 bits. */
    method Calloc(nmemb: nat, size: nat) returns (p: nat)
      requires Valid() && nmemb <= SIZE_MAX && size <= SIZE_MAX
      modifies this, pmm, pmm.words
      ensures Valid()
      ensures p != 0 <==> nmemb * size <= SIZE_MAX && CanAlloc(old(hdr), old(list), old(pmm.used), nmemb * size)
      ensures p == 0 ==> live == old(live) && ram == old(ram)
      ensures p != 0 ==>
        && p !in old(live) && live == old(live)[p := nmemb * size] && Apart(old(live), p, nmemb * size)
        && ram == Overwrite(old(ram), p, Zeros(nmemb * size))
      ensures p != 0 ==>
        p >= HEADER_SIZE && Placed(old(hdr), old(list), AlignUp(nmemb * size), p - HEADER_SIZE, hdr, list)
      ensures FramesAdded(old(pmm.used), old(frames), pmm.used, frames)
    {
      p := 0;
      if nmemb != 0 && size != 0 {
        Overflow(nmemb, size);
        if nmemb <= SIZE_MAX / size {
          var total := nmemb * size;
          p := Alloc(total);
          if p != 0 {
            NewIsApart(hdr, list, head, tail, owner, frames, old(live), live, p, total);
            ram := Overwrite(ram, p, Zeros(total));
          }
        }
      }
    }

    /** A payload for `size` bytes that starts with the first `n` bytes of `ptr`. */
    method AllocCopy(ptr: nat, n: nat, size: nat) returns (p: nat)
      requires Valid() && ptr in live && live[ptr] <= n < size <= SIZE_MAX && ptr + n <= RAM_SIZE
      modifies this, pmm, pmm.words
      ensures Valid()
      ensures p != 0 <==> CanAlloc(old(hdr), old(list), old(pmm.used), size)
      ensures p == 0 ==> ram == old(ram) && live == old(live)
      ensures p != 0 ==> p !in old(live) && live == old(live)[p := size]
      ensures p != 0 ==> SameBytes(old(ram), ptr, ram, p, old(live)[ptr]) && OthersKept(old(ram), ram, old(live), ptr)
      ensures p != 0 ==> p >= HEADER_SIZE && Placed(old(hdr), old(list), AlignUp(size), p - HEADER_SIZE, hdr, list)
      ensures p == 0 ==> OnlyGrown(old(hdr), old(list), hdr, list)
      ensures FramesAdded(old(pmm.used), old(frames), pmm.used, frames)
    {
      p := Alloc(size);
      if p != 0 {
        NewIsApart(hdr, list, head, tail, owner, frames, old(live), live, p, size);
        CopyApart(ram, old(live), p, ptr, n, size);
        ram := Overwrite(ram, p, ram[ptr..ptr + n]);
      }
    }

    /** The second half of realloc: a new payload, a copy, and the old payload freed. */
    method Move(ptr: nat, oldSize: nat, size: nat) returns (p: nat)
      requires Valid() && ptr in live && live[ptr] <= oldSize < size <= SIZE_MAX && ptr + oldSize <= RAM_SIZE
      modifies this, pmm, pmm.words
      ensures Valid()
      ensures p != 0 <==> CanAlloc(old(hdr), old(list), old(pmm.used), size)
      ensures p == 0 ==> ram == old(ram) && live == old(live)
      ensures p != 0 ==> p !in old(live) && live == old(live)[p := size] - {ptr}
      ensures p != 0 ==> SameBytes(old(ram), ptr, ram, p, old(live)[ptr]) && OthersKept(old(ram), ram, old(live), ptr)
      ensures p != 0 ==>
        && p >= HEADER_SIZE && ptr >= HEADER_SIZE
        && Replaced(old(hdr), old(list), AlignUp(size), p - HEADER_SIZE, ptr - HEADER_SIZE, list)
      ensures p == 0 ==> OnlyGrown(old(hdr), old(list), hdr, list)
      ensures FramesAdded(old(pmm.used), old(frames), pmm.used, frames)
    {
      p := AllocCopy(ptr, oldSize, size);
      if p != 0 {
        LiveIffUsed(ptr);
        ghost var hs, blocks := hdr, list;
        Free(ptr);
        assert Placed(old(hdr), old(list), AlignUp(size), p - HEADER_SIZE, hs, blocks);
      }
    }

    /** A block that is large enough stays where it is and gives its tail back. */
    method Shrink(block: nat, aligned: nat, ghost size: nat)
      requires Valid() && block in list && block in hdr && !hdr[block].free
      requires size <= aligned <= hdr[block].size && aligned % ALIGN == 0
      modifies this`tail, this`hdr, this`list, this`owner, this`live
      ensures Valid() && live == old(live)[block + HEADER_SIZE := size]
      ensures Cut(old(hdr), old(list), block, old(hdr)[block].size, aligned, hdr, list) && !hdr[block].free
    {
      ghost var i := IndexOf(list, block);
      ghost var used := UsedOf(hdr, list);
      SplitBlock(block, aligned, i);
      live := live[block + HEADER_SIZE := size];
      LiveResize(used, old(live), block, hdr[block].size, size, UsedOf(hdr, list), live);
    }

    /** All live payloads, and the whole of any block, lie in memory. */
    lemma AllInMemory(a: nat)
      requires Valid()
      ensures forall q :: q in live ==> q + live[q] <= RAM_SIZE
      ensures a in list ==> a in hdr && End(hdr, a) <= RAM_SIZE && hdr[a].size % ALIGN == 0
      ensures 0 !in live
    {
      assert 0 in live ==> PayloadOk(UsedOf(hdr, list), live, 0);
      forall q | q in live
        ensures q + live[q] <= RAM_SIZE
      {
        LivePayloads(hdr, list, head, tail, owner, frames, live, q, q);
        InMemory(frames, q, live[q]);
      }
      if a in list {
        assert Block(hdr, owner, a) && AlignedAt(hdr, a);
        var x := End(hdr, a) - 1;
        assert x in owner.Keys && x / PAGE in frames;
      }
    }

    /** realloc of a live pointer. */
    method Refit(ptr: nat, size: nat) returns (p: nat)
      requires Valid() && ptr in live && 0 < size <= SIZE_MAX - (ALIGN - 1)
      modifies this, pmm, pmm.words
      ensures Valid() && Reallocated(old(live), old(ram), ptr, size, p, live, ram)
      ensures p == ptr <==> SizeAt(old(hdr), ptr - HEADER_SIZE) >= AlignUp(size)
      ensures p != 0 <==> p == ptr || CanAlloc(old(hdr), old(list), old(pmm.used), size)
      ensures ResizedBlocks(old(hdr), old(list), ptr, size, p, hdr, list)
      ensures FramesAdded(old(pmm.used), old(frames), pmm.used, frames)
    {
      LiveIffUsed(ptr);
      var block := ptr - HEADER_SIZE;
      AllInMemory(block);
      var have, aligned := hdr[block].size, AlignUp(size);
      if have >= aligned {
        Shrink(block, aligned, size);
        p := ptr;
        ReallocatedInPlace(old(live), ram, ptr, size);
      } else {
        BelowAligned(have, size);
        p := Move(ptr, have, size);
        Unmoved(old(live), old(ram), ptr);
      }
    }

    /**
     Changes the size of a payload, in place or by moving it; the bytes that the old and the new size have in common
     survive, and so does every other payload. On failure the payload stays as it is.
     */
    method Realloc(ptr: nat, size: nat) returns (p: nat)
      requires Valid() && Known(ptr) && size <= SIZE_MAX
      modifies this, pmm, pmm.words
      ensures Valid() && Reallocated(old(live), old(ram), ptr, size, p, live, ram)
      ensures ptr == 0 ==> (p != 0 <==> CanAlloc(old(hdr), old(list), old(pmm.used), size))
      ensures ptr != 0 ==> (p != 0 <==>
        && ptr in old(live) && 0 < size <= SIZE_MAX - (ALIGN - 1)
        && (SizeAt(old(hdr), ptr - HEADER_SIZE) >= AlignUp(size) || CanAlloc(old(hdr), old(list), old(pmm.used), size)))
      ensures ResizedBlocks(old(hdr), old(list), ptr, size, p, hdr, list)
      ensures size == 0 && ptr in old(live) ==>
        ptr >= HEADER_SIZE && FreedList(old(hdr), old(list), ptr - HEADER_SIZE, list)
      ensures FramesAdded(old(pmm.used), old(frames), pmm.used, frames)
    {
      ListNonNull(hdr, list, head, tail);
      AllInMemory(0);
      LiveIffUsed(ptr);
      Unmoved(live, ram, ptr);
      p := 0;
      if ptr == 0 {
        p := Alloc(size);
      } else if size == 0 {
        Free(ptr);
      } else if ptr % ALIGN == 0 && !hdr[ptr - HEADER_SIZE].free && size <= SIZE_MAX - (ALIGN - 1) {
        p := Refit(ptr, size);
      }
    }

    /** Walks the list and adds up block sizes, in 32 bits; the sizes account for every page of the arena. */
    method Stats() returns (total: nat, usedBytes: nat, freeBytes: nat)
      requires Structure()
      ensures Wraps(total, PAGE * |frames|)
      ensures Wraps(usedBytes, Payload(hdr, list, false)) && Wraps(freeBytes, Payload(hdr, list, true))
      ensures Payload(hdr, list, true) + Payload(hdr, list, false) + HEADER_SIZE * |list| == PAGE * |frames|
    {
      total, usedBytes, freeBytes := 0, 0, 0;
      var cur := head;
      ghost var i := 0;
      ListNonNull(hdr, list, head, tail);
      while cur != 0
        invariant 0 <= i <= |list| && cur == At(list, i)
        invariant Wraps(total, Sum(hdr, list[..i]))
        invariant Wraps(usedBytes, Payload(hdr, list[..i], false)) && Wraps(freeBytes, Payload(hdr, list[..i], true))
        decreases |list| - i
      {
        InListHasHeader(hdr, list, head, tail, i);
        PayloadStep(hdr, list, i);
        ghost var was, now := list[..i], list[..i + 1];
        var size := hdr[cur].size;
        total := Add32(total, size + HEADER_SIZE, Sum(hdr, was), Sum(hdr, now));
        if hdr[cur].free {
          freeBytes := Add32(freeBytes, size, Payload(hdr, was, true), Payload(hdr, now, true));
        } else {
          usedBytes := Add32(usedBytes, size, Payload(hdr, was, false), Payload(hdr, now, false));
        }
        cur := hdr[cur].next;
        i := i + 1;
      }
      assert list[..i] == list;
      PayloadSum(hdr, list);
    }
  }
}
