/** The list of block headers of a heap arena (heap.c), as values: its links, its blocks and the bytes they tile. */
module HeapList {

  const HEADER_SIZE := 24
  const ALIGN := 8

  datatype Header = Header(size: nat, free: bool, next: nat, prev: nat)

  type Headers = map<nat, Header>

  /** The list element at `i`; the null address stands outside both ends. */
  function At(list: seq<nat>, i: int): nat {
    if 0 <= i < |list| then list[i] else 0
  }

  lemma IndexOf(list: seq<nat>, a: nat) returns (i: nat)
    requires a in list
    ensures i < |list| && list[i] == a
  {
    i :| i < |list| && list[i] == a;
  }

  /** The header at position `i` of the list points to its neighbours. */
  ghost predicate Node(hs: Headers, list: seq<nat>, i: nat)
    requires i < |list|
  {
    list[i] != 0 && list[i] in hs && hs[list[i]].next == At(list, i + 1) && hs[list[i]].prev == At(list, i - 1)
  }

  ghost predicate Distinct(list: seq<nat>) {
    forall i, j :: 0 <= i < j < |list| ==> list[i] != list[j]
  }

  /** `list` is the doubly linked list from `head` to `tail`. */
  ghost predicate Chain(hs: Headers, list: seq<nat>, head: nat, tail: nat) {
    && (forall i :: 0 <= i < |list| ==> Node(hs, list, i))
    && Distinct(list)
    && head == At(list, 0) && tail == At(list, |list| - 1)
  }

  /** One past the last byte of the block with its header at `a`. */
  function End(hs: Headers, a: nat): nat
    requires a in hs
  {
    a + HEADER_SIZE + hs[a].size
  }

  /** `owner` assigns all bytes of block `a` to it. */
  ghost predicate Block(hs: Headers, owner: map<nat, nat>, a: nat) {
    && a in hs
    && forall x :: a <= x < End(hs, a) ==> x in owner && owner[x] == a
  }

  /** `owner` assigns byte `x` to a block that it is in. */
  ghost predicate Cell(hs: Headers, list: seq<nat>, owner: map<nat, nat>, x: nat)
    requires x in owner
  {
    owner[x] in list && owner[x] in hs && owner[x] <= x < End(hs, owner[x])
  }

  /** The blocks of the list partition the domain of `owner`, which maps each byte to the block it is in. */
  ghost predicate Tiles(hs: Headers, list: seq<nat>, owner: map<nat, nat>) {
    && (forall a {:trigger Block(hs, owner, a)} :: a in list ==> Block(hs, owner, a))
    && (forall x {:trigger Cell(hs, list, owner, x)} :: x in owner ==> Cell(hs, list, owner, x))
  }

  /** Every header and every payload starts at a multiple of eight. */
  ghost predicate Aligned(hs: Headers, list: seq<nat>) {
    forall a {:trigger AlignedAt(hs, a)} :: a in list ==> AlignedAt(hs, a)
  }

  ghost predicate AlignedAt(hs: Headers, a: nat) {
    a in hs && a % ALIGN == 0 && hs[a].size % ALIGN == 0
  }

  /** No two blocks of the list share a byte. */
  lemma BlocksDisjoint(hs: Headers, list: seq<nat>, owner: map<nat, nat>, a: nat, b: nat)
    requires Tiles(hs, list, owner) && a in list && b in list && a != b
    ensures a in hs && b in hs && (End(hs, a) <= b || End(hs, b) <= a)
  {
    assert Block(hs, owner, a) && Block(hs, owner, b);
    var x := if a < b then b else a;
    assert a <= x < End(hs, a) ==> owner[x] == a;
    assert b <= x < End(hs, b) ==> owner[x] == b;
  }

  // ---- split_block ----

  function SplitHeaders(hs: Headers, b: nat, size: nat): Headers
    requires b in hs && size + HEADER_SIZE <= hs[b].size
  {
    var h, new_ := hs[b], b + HEADER_SIZE + size;
    var h1 := hs[new_ := Header(h.size - size - HEADER_SIZE, true, h.next, b)];
    var h2 := if h.next != 0 && h.next in h1 then h1[h.next := h1[h.next].(prev := new_)] else h1;
    h2[b := h.(next := new_, size := size)]
  }

  function InsertAfter(list: seq<nat>, i: nat, a: nat): seq<nat>
    requires i < |list|
  {
    list[..i + 1] + [a] + list[i + 1..]
  }

  lemma InsertedAt(list: seq<nat>, i: nat, a: nat, j: int)
    requires i < |list|
    ensures At(InsertAfter(list, i, a), j) == if j <= i then At(list, j) else if j == i + 1 then a else At(list, j - 1)
  {
  }

  /** A block that starts inside block `b`, past its header, is not in the list. */
  lemma InsideIsNew(hs: Headers, list: seq<nat>, owner: map<nat, nat>, b: nat, a: nat)
    requires Tiles(hs, list, owner) && b in list && b in hs && b < a < End(hs, b)
    ensures a !in list
  {
    assert Block(hs, owner, b) && owner[a] == b;
    assert !Block(hs, owner, a);
  }

  lemma SplitChain(hs: Headers, list: seq<nat>, head: nat, tail: nat, owner: map<nat, nat>, i: nat, size: nat)
    requires Chain(hs, list, head, tail) && Tiles(hs, list, owner) && i < |list|
    requires Node(hs, list, i) && size + HEADER_SIZE <= hs[list[i]].size
    ensures var new_ := list[i] + HEADER_SIZE + size;
      Chain(SplitHeaders(hs, list[i], size), InsertAfter(list, i, new_), head, if i + 1 < |list| then tail else new_)
  {
    var b, new_ := list[i], list[i] + HEADER_SIZE + size;
    InsideIsNew(hs, list, owner, b, new_);
    if i + 1 < |list| {
      assert Node(hs, list, i + 1);
    }
    var hs', list' := SplitHeaders(hs, b, size), InsertAfter(list, i, new_);
    forall j | 0 <= j < |list'|
      ensures Node(hs', list', j)
    {
      InsertedAt(list, i, new_, j);
      InsertedAt(list, i, new_, j - 1);
      InsertedAt(list, i, new_, j + 1);
      if j <= i {
        assert Node(hs, list, j);
      } else if j > i + 1 {
        assert Node(hs, list, j - 1);
      }
    }
    InsertedAt(list, i, new_, 0);
    InsertedAt(list, i, new_, |list|);
  }

  function SplitOwner(owner: map<nat, nat>, b: nat, new_: nat): map<nat, nat> {
    map x | x in owner :: if owner[x] == b && new_ <= x then new_ else owner[x]
  }

  lemma SplitTiles(hs: Headers, list: seq<nat>, head: nat, tail: nat, owner: map<nat, nat>, i: nat, size: nat)
    requires Chain(hs, list, head, tail) && Tiles(hs, list, owner) && i < |list| && Node(hs, list, i)
    requires size + HEADER_SIZE <= hs[list[i]].size
    ensures var new_ := list[i] + HEADER_SIZE + size;
      Tiles(SplitHeaders(hs, list[i], size), InsertAfter(list, i, new_), SplitOwner(owner, list[i], new_))
  {
    var b, new_ := list[i], list[i] + HEADER_SIZE + size;
    var hs', list', owner' := SplitHeaders(hs, b, size), InsertAfter(list, i, new_), SplitOwner(owner, b, new_);
    InsideIsNew(hs, list, owner, b, new_);
    assert Block(hs, owner, b);
    assert b in list;
    forall a | a in list'
      ensures Block(hs', owner', a)
    {
      if a != new_ {
        assert a in list && Block(hs, owner, a);
      }
    }
    forall x | x in owner'
      ensures Cell(hs', list', owner', x)
    {
      assert Cell(hs, list, owner, x);
    }
  }

  lemma SplitAligned(hs: Headers, list: seq<nat>, i: nat, size: nat)
    requires Aligned(hs, list) && i < |list| && list[i] in hs
    requires size % ALIGN == 0 && size + HEADER_SIZE <= hs[list[i]].size
    ensures Aligned(SplitHeaders(hs, list[i], size), InsertAfter(list, i, list[i] + HEADER_SIZE + size))
  {
    assert list[i] in list && AlignedAt(hs, list[i]);
    assert (hs[list[i]].size - size - HEADER_SIZE) % ALIGN == 0;
    var new_ := list[i] + HEADER_SIZE + size;
    var hs' := SplitHeaders(hs, list[i], size);
    forall a | a in InsertAfter(list, i, new_)
      ensures AlignedAt(hs', a)
    {
      assert a in list || a == new_;
      assert a in list ==> AlignedAt(hs, a);
    }
  }

  /** Block `a` is as large as it was, and as free. */
  ghost predicate SameBlock(hs: Headers, hs': Headers, a: nat) {
    a in hs && a in hs' && hs'[a].size == hs[a].size && hs'[a].free == hs[a].free
  }

  /** All blocks but `b` are still there, as large and as free as they were. */
  ghost predicate OtherBlocks(hs: Headers, list: seq<nat>, b: nat, hs': Headers, list': seq<nat>) {
    forall a {:trigger SameBlock(hs, hs', a)} :: a in list && a != b ==> a in list' && SameBlock(hs, hs', a)
  }

  /**
   Block `b`, which had `whole` bytes, is cut to `n`: what is more than a header and the least payload is not left in
   it, but is a free block right behind it. No other block changes, and no other comes.
   */
  ghost predicate Cut(hs: Headers, list: seq<nat>, b: nat, whole: nat, n: nat, hs': Headers, list': seq<nat>) {
    && b in list' && b in hs' && n <= hs'[b].size < n + HEADER_SIZE + ALIGN
    && OtherBlocks(hs, list, b, hs', list')
    && var e := End(hs', b);
       if hs'[b].size == whole then forall a :: a in list' ==> a in list || a == b
       else
         && e in list' && e !in list && e in hs' && hs'[e].free && End(hs', e) == b + HEADER_SIZE + whole
         && forall a :: a in list' ==> a in list || a == b || a == e
  }

  /** Every block is as it was, and what came is free. */
  ghost predicate OnlyGrown(hs: Headers, list: seq<nat>, hs': Headers, list': seq<nat>) {
    && (forall a {:trigger SameBlock(hs, hs', a)} :: a in list ==> a in list' && SameBlock(hs, hs', a))
    && forall a :: a in list' && a !in list ==> a in hs' && hs'[a].free
  }

  lemma NotCut(hs: Headers, list: seq<nat>, b: nat, n: nat)
    requires b in list && (forall a :: a in list ==> a in hs) && n <= hs[b].size < n + HEADER_SIZE + ALIGN
    ensures Cut(hs, list, b, hs[b].size, n, hs, list)
  {
  }

  lemma SplitCuts(hs: Headers, list: seq<nat>, i: nat, n: nat)
    requires i < |list| && (forall a :: a in list ==> a in hs) && n + HEADER_SIZE <= hs[list[i]].size
    requires list[i] + HEADER_SIZE + n !in list
    ensures var b := list[i];
      Cut(hs, list, b, hs[b].size, n, SplitHeaders(hs, b, n), InsertAfter(list, i, b + HEADER_SIZE + n))
  {
    var b := list[i];
    var hs', list' := SplitHeaders(hs, b, n), InsertAfter(list, i, b + HEADER_SIZE + n);
    assert forall a :: a in list' <==> a in list || a == b + HEADER_SIZE + n;
    forall a | a in list && a != b
      ensures SameBlock(hs, hs', a)
    {
    }
  }

  /** Whether the block that was cut is in use has no bearing on the others. */
  lemma CutMarked(hs: Headers, list: seq<nat>, b: nat, whole: nat, n: nat, hs': Headers, list': seq<nat>, free: bool)
    requires Cut(hs, list, b, whole, n, hs', list')
    ensures Cut(hs, list, b, whole, n, hs'[b := hs'[b].(free := free)], list')
  {
    forall a | a in list && a != b
      ensures a in list' && SameBlock(hs, hs'[b := hs'[b].(free := free)], a)
    {
      assert SameBlock(hs, hs', a);
    }
  }

  /** The block was put at the end of the list first. */
  lemma CutLast(hs: Headers, list: seq<nat>, hs1: Headers, b: nat, whole: nat, n: nat, hs': Headers, list': seq<nat>)
    requires b !in list && OtherBlocks(hs, list, b, hs1, list + [b])
    requires Cut(hs1, list + [b], b, whole, n, hs', list')
    ensures Cut(hs, list, b, whole, n, hs', list')
  {
    forall a | a in list && a != b
      ensures a in list' && SameBlock(hs, hs', a)
    {
      assert SameBlock(hs, hs1, a) && SameBlock(hs1, hs', a);
    }
  }

  // ---- coalesce ----

  /** The block at `b` swallows its right neighbour in the list. */
  function MergeHeaders(hs: Headers, b: nat, dead: nat): Headers
    requires b in hs && dead in hs
  {
    var h1 := hs[b := hs[b].(size := hs[b].size + HEADER_SIZE + hs[dead].size, next := hs[dead].next)];
    if hs[dead].next != 0 && hs[dead].next in h1 then h1[hs[dead].next := h1[hs[dead].next].(prev := b)] else h1
  }

  function RemoveAfter(list: seq<nat>, i: nat): seq<nat>
    requires i + 1 < |list|
  {
    list[..i + 1] + list[i + 2..]
  }

  lemma RemovedAt(list: seq<nat>, i: nat, j: int)
    requires i + 1 < |list|
    ensures At(RemoveAfter(list, i), j) == if j <= i then At(list, j) else At(list, j + 1)
  {
  }

  lemma MergeChain(hs: Headers, list: seq<nat>, head: nat, tail: nat, i: nat)
    requires Chain(hs, list, head, tail) && i + 1 < |list| && Node(hs, list, i) && Node(hs, list, i + 1)
    ensures Chain(MergeHeaders(hs, list[i], list[i + 1]), RemoveAfter(list, i), head,
                  if i + 2 < |list| then tail else list[i])
  {
    if i + 2 < |list| {
      assert Node(hs, list, i + 2);
    }
    var hs', list' := MergeHeaders(hs, list[i], list[i + 1]), RemoveAfter(list, i);
    forall j | 0 <= j < |list'|
      ensures Node(hs', list', j)
    {
      RemovedAt(list, i, j);
      RemovedAt(list, i, j - 1);
      RemovedAt(list, i, j + 1);
      if j <= i {
        assert Node(hs, list, j);
      } else {
        assert Node(hs, list, j + 1);
      }
    }
    RemovedAt(list, i, 0);
    RemovedAt(list, i, |list| - 2);
  }

  function MergeOwner(owner: map<nat, nat>, b: nat, dead: nat): map<nat, nat> {
    map x | x in owner :: if owner[x] == dead then b else owner[x]
  }

  lemma MergeTiles(hs: Headers, list: seq<nat>, head: nat, tail: nat, owner: map<nat, nat>, i: nat)
    requires Chain(hs, list, head, tail) && Tiles(hs, list, owner)
    requires i + 1 < |list| && Node(hs, list, i) && Node(hs, list, i + 1) && End(hs, list[i]) == list[i + 1]
    ensures Tiles(MergeHeaders(hs, list[i], list[i + 1]), RemoveAfter(list, i), MergeOwner(owner, list[i], list[i + 1]))
  {
    var b, dead := list[i], list[i + 1];
    var hs', list', owner' := MergeHeaders(hs, b, dead), RemoveAfter(list, i), MergeOwner(owner, b, dead);
    assert b in list && dead in list;
    assert Block(hs, owner, b) && Block(hs, owner, dead);
    RemovedMembers(list, i);
    assert hs'[b].size == hs[b].size + HEADER_SIZE + hs[dead].size && End(hs', b) == End(hs, dead);
    forall a | a in list'
      ensures Block(hs', owner', a)
    {
      assert a in list && Block(hs, owner, a);
      assert a != b ==> hs'[a].size == hs[a].size;
    }
    forall x | x in owner'
      ensures Cell(hs', list', owner', x)
    {
      assert Cell(hs, list, owner, x);
    }
  }

  lemma JoinedAligned(x: nat, y: nat)
    requires x % ALIGN == 0 && y % ALIGN == 0
    ensures (x + HEADER_SIZE + y) % ALIGN == 0
  {
  }

  lemma MergeAligned(hs: Headers, list: seq<nat>, i: nat)
    requires Aligned(hs, list) && i + 1 < |list| && list[i] in hs && list[i + 1] in hs
    ensures Aligned(MergeHeaders(hs, list[i], list[i + 1]), RemoveAfter(list, i))
  {
    assert list[i] in list && list[i + 1] in list;
    assert AlignedAt(hs, list[i]) && AlignedAt(hs, list[i + 1]);
    JoinedAligned(hs[list[i]].size, hs[list[i + 1]].size);
    forall a | a in RemoveAfter(list, i)
      ensures AlignedAt(MergeHeaders(hs, list[i], list[i + 1]), a)
    {
      assert a in list && AlignedAt(hs, a);
    }
  }

  lemma RemovedMembers(list: seq<nat>, i: nat)
    requires Distinct(list) && i + 1 < |list|
    ensures forall a :: a in RemoveAfter(list, i) <==> a in list && a != list[i + 1]
  {
    var list' := RemoveAfter(list, i);
    forall a | a in list && a != list[i + 1]
      ensures a in list'
    {
      var j :| 0 <= j < |list| && list[j] == a;
      assert a == if j <= i then list'[j] else list'[j - 1];
    }
  }

  // ---- grow_heap ----

  /** A free block is put at the end of the list. */
  function AppendHeaders(hs: Headers, tail: nat, a: nat, size: nat): Headers {
    var h1 := hs[a := Header(size, true, 0, tail)];
    if tail != 0 && tail in h1 then h1[tail := h1[tail].(next := a)] else h1
  }

  lemma AppendChain(hs: Headers, list: seq<nat>, head: nat, tail: nat, a: nat, size: nat)
    requires Chain(hs, list, head, tail) && a != 0 && a !in list
    ensures Chain(AppendHeaders(hs, tail, a, size), list + [a], if list == [] then a else head, a)
  {
    if list != [] {
      assert Node(hs, list, |list| - 1);
    }
    var hs', list' := AppendHeaders(hs, tail, a, size), list + [a];
    forall j | 0 <= j < |list'|
      ensures Node(hs', list', j)
    {
      if j < |list| {
        assert Node(hs, list, j);
      }
    }
  }

  /** `r` is `owner` with the `n` bytes from `a` on given to block `a`. */
  ghost predicate Claimed(owner: map<nat, nat>, a: nat, n: nat, r: map<nat, nat>) {
    && (forall x :: x in r <==> x in owner || a <= x < a + n)
    && (forall x :: x in r ==> r[x] == if a <= x < a + n then a else owner[x])
  }

  lemma {:induction false} Claim(owner: map<nat, nat>, a: nat, n: nat) returns (r: map<nat, nat>)
    ensures Claimed(owner, a, n, r)
  {
    if n == 0 {
      r := owner;
    } else {
      r := Claim(owner, a, n - 1);
      r := r[a + n - 1 := a];
    }
  }

  lemma AppendTiles(hs: Headers, list: seq<nat>, tail: nat, owner: map<nat, nat>, owner': map<nat, nat>, a: nat,
                    size: nat)
    requires Tiles(hs, list, owner) && (tail == 0 || (tail in list && tail in hs))
    requires forall x :: a <= x < a + HEADER_SIZE + size ==> x !in owner
    requires Claimed(owner, a, HEADER_SIZE + size, owner')
    ensures a !in list && Tiles(AppendHeaders(hs, tail, a, size), list + [a], owner')
  {
    assert a !in owner;
    assert !Block(hs, owner, a);
    var hs', list' := AppendHeaders(hs, tail, a, size), list + [a];
    assert forall x :: x in owner ==> x in owner' && owner'[x] == owner[x];
    forall b | b in list
      ensures Block(hs', owner', b)
    {
      assert Block(hs, owner, b);
    }
    assert End(hs', a) == a + HEADER_SIZE + size;
    assert forall x :: x in owner' ==> x in owner || a <= x < End(hs', a);
    forall x | x in owner'
      ensures Cell(hs', list', owner', x)
    {
      if x in owner {
        assert Cell(hs, list, owner, x);
      }
    }
  }

  // ---- Conservation ----

  /** The bytes taken up by the blocks of a list, headers included. */
  function Sum(hs: Headers, list: seq<nat>): nat {
    if list == [] then 0
    else
      var a := list[|list| - 1];
      Sum(hs, list[..|list| - 1]) + HEADER_SIZE + if a in hs then hs[a].size else 0
  }

  /** The payload bytes of the blocks of the list that are free, or of those that are not. */
  function Payload(hs: Headers, list: seq<nat>, free: bool): nat {
    if list == [] then 0
    else
      var a := list[|list| - 1];
      Payload(hs, list[..|list| - 1], free) + if a in hs && hs[a].free == free then hs[a].size else 0
  }

  lemma {:induction false} PayloadSum(hs: Headers, list: seq<nat>)
    ensures Payload(hs, list, true) + Payload(hs, list, false) + HEADER_SIZE * |list| == Sum(hs, list)
  {
    if list != [] {
      PayloadSum(hs, list[..|list| - 1]);
    }
  }

  lemma PayloadStep(hs: Headers, list: seq<nat>, i: nat)
    requires i < |list| && list[i] in hs
    ensures forall free ::
      Payload(hs, list[..i + 1], free)
        == Payload(hs, list[..i], free) + if hs[list[i]].free == free then hs[list[i]].size else 0
    ensures Sum(hs, list[..i + 1]) == Sum(hs, list[..i]) + hs[list[i]].size + HEADER_SIZE
  {
    assert list[..i + 1][..i] == list[..i];
  }

  lemma {:induction false} SumConcat(hs: Headers, l: seq<nat>, m: seq<nat>)
    ensures Sum(hs, l + m) == Sum(hs, l) + Sum(hs, m)
  {
    if m == [] {
      assert l + m == l;
    } else {
      assert (l + m)[..|l + m| - 1] == l + m[..|m| - 1];
      SumConcat(hs, l, m[..|m| - 1]);
    }
  }

  lemma {:induction false} SumFrame(hs: Headers, hs': Headers, list: seq<nat>)
    requires forall a :: a in list ==> a in hs && a in hs' && hs'[a].size == hs[a].size
    ensures Sum(hs', list) == Sum(hs, list)
  {
    if list != [] {
      assert list[|list| - 1] in list;
      SumFrame(hs, hs', list[..|list| - 1]);
    }
  }

  lemma SumOne(hs: Headers, a: nat)
    requires a in hs
    ensures Sum(hs, [a]) == HEADER_SIZE + hs[a].size
  {
    assert [a][..0] == [];
  }

  lemma SumPieces(hs: Headers, l: seq<nat>, m: seq<nat>, r: seq<nat>)
    ensures Sum(hs, l + m + r) == Sum(hs, l) + Sum(hs, m) + Sum(hs, r)
  {
    SumConcat(hs, l + m, r);
    SumConcat(hs, l, m);
  }

  lemma SumPair(hs: Headers, a: nat, b: nat)
    requires a in hs && b in hs
    ensures Sum(hs, [a, b]) == 2 * HEADER_SIZE + hs[a].size + hs[b].size
  {
    assert [a, b] == [a] + [b];
    SumConcat(hs, [a], [b]);
    SumOne(hs, a);
    SumOne(hs, b);
  }

  lemma MergeSum(hs: Headers, list: seq<nat>, head: nat, tail: nat, i: nat)
    requires Chain(hs, list, head, tail) && i + 1 < |list| && Node(hs, list, i) && Node(hs, list, i + 1)
    ensures Sum(MergeHeaders(hs, list[i], list[i + 1]), RemoveAfter(list, i)) == Sum(hs, list)
  {
    var b, dead := list[i], list[i + 1];
    var hs' := MergeHeaders(hs, b, dead);
    var l, r := list[..i], list[i + 2..];
    forall a | a in list
      ensures a in hs
    {
      var j :| 0 <= j < |list| && list[j] == a;
      assert Node(hs, list, j);
    }
    SumFrame(hs, hs', l);
    SumFrame(hs, hs', r);
    assert list == l + [b, dead] + r;
    SumPieces(hs, l, [b, dead], r);
    SumPair(hs, b, dead);
    assert RemoveAfter(list, i) == l + [b] + r;
    SumPieces(hs', l, [b], r);
    SumOne(hs', b);
  }

  lemma SplitSum(hs: Headers, list: seq<nat>, head: nat, tail: nat, owner: map<nat, nat>, i: nat, size: nat)
    requires Chain(hs, list, head, tail) && Tiles(hs, list, owner) && i < |list| && Node(hs, list, i)
    requires size + HEADER_SIZE <= hs[list[i]].size
    ensures Sum(SplitHeaders(hs, list[i], size), InsertAfter(list, i, list[i] + HEADER_SIZE + size)) == Sum(hs, list)
  {
    var b, new_ := list[i], list[i] + HEADER_SIZE + size;
    var hs' := SplitHeaders(hs, b, size);
    var l, r := list[..i], list[i + 1..];
    InsideIsNew(hs, list, owner, b, new_);
    forall a | a in list
      ensures a in hs
    {
      assert Block(hs, owner, a);
    }
    SumFrame(hs, hs', l);
    SumFrame(hs, hs', r);
    assert list == l + [b] + r;
    SumPieces(hs, l, [b], r);
    SumOne(hs, b);
    assert InsertAfter(list, i, new_) == l + [b, new_] + r;
    SumPieces(hs', l, [b, new_], r);
    SumPair(hs', b, new_);
  }

  lemma AppendAligned(hs: Headers, list: seq<nat>, tail: nat, a: nat, size: nat)
    requires Aligned(hs, list) && a % ALIGN == 0 && size % ALIGN == 0 && a !in list
    ensures Aligned(AppendHeaders(hs, tail, a, size), list + [a]) && forall b :: b in list ==> b in hs
  {
    forall b | b in list + [a]
      ensures AlignedAt(AppendHeaders(hs, tail, a, size), b) && (b in list ==> b in hs)
    {
      assert b in list ==> AlignedAt(hs, b);
    }
  }

  lemma AppendSum(hs: Headers, list: seq<nat>, tail: nat, a: nat, size: nat)
    requires a !in list && (forall b :: b in list ==> b in hs)
    requires tail == 0 || tail in list
    ensures Sum(AppendHeaders(hs, tail, a, size), list + [a]) == Sum(hs, list) + HEADER_SIZE + size
  {
    var hs' := AppendHeaders(hs, tail, a, size);
    SumFrame(hs, hs', list);
    SumConcat(hs', list, [a]);
    SumOne(hs', a);
  }

  // ---- All of it ----

  /** The arena is one list of aligned blocks that tile `owner`'s bytes, `total` in number. */
  ghost predicate Wellformed(hs: Headers, list: seq<nat>, head: nat, tail: nat, owner: map<nat, nat>, total: nat) {
    Chain(hs, list, head, tail) && Tiles(hs, list, owner) && Aligned(hs, list) && Sum(hs, list) == total
  }

  lemma InListHasHeader(hs: Headers, list: seq<nat>, head: nat, tail: nat, i: nat)
    requires Chain(hs, list, head, tail) && i < |list|
    ensures Node(hs, list, i) && list[i] in hs && list[i] in list
    ensures hs[list[i]].next != 0 ==> i + 1 < |list| && list[i + 1] in hs
    ensures hs[list[i]].prev != 0 ==> i > 0 && list[i - 1] in hs
  {
    if i + 1 < |list| {
      assert Node(hs, list, i + 1);
    }
    if i > 0 {
      assert Node(hs, list, i - 1);
    }
  }

  lemma ListNonNull(hs: Headers, list: seq<nat>, head: nat, tail: nat)
    requires Chain(hs, list, head, tail)
    ensures forall i :: 0 <= i < |list| ==> list[i] != 0 && list[i] in hs
  {
    forall i | 0 <= i < |list|
      ensures list[i] != 0 && list[i] in hs
    {
      assert Node(hs, list, i);
    }
  }

  lemma Split(hs: Headers, list: seq<nat>, head: nat, tail: nat, owner: map<nat, nat>, total: nat, i: nat, size: nat)
    requires Wellformed(hs, list, head, tail, owner, total) && i < |list| && list[i] in hs
    requires size % ALIGN == 0 && size + HEADER_SIZE <= hs[list[i]].size - ALIGN
    ensures var new_ := list[i] + HEADER_SIZE + size;
      && new_ !in list
      && Wellformed(SplitHeaders(hs, list[i], size), InsertAfter(list, i, new_), head,
                    if hs[list[i]].next != 0 then tail else new_, SplitOwner(owner, list[i], new_), total)
  {
    InListHasHeader(hs, list, head, tail, i);
    InsideIsNew(hs, list, owner, list[i], list[i] + HEADER_SIZE + size);
    SplitChain(hs, list, head, tail, owner, i, size);
    SplitTiles(hs, list, head, tail, owner, i, size);
    SplitAligned(hs, list, i, size);
    SplitSum(hs, list, head, tail, owner, i, size);
    if i + 1 < |list| {
      assert Node(hs, list, i + 1);
    }
  }

  lemma Merge(hs: Headers, list: seq<nat>, head: nat, tail: nat, owner: map<nat, nat>, total: nat, i: nat)
    requires Wellformed(hs, list, head, tail, owner, total) && i + 1 < |list|
    requires list[i] in hs && list[i + 1] in hs && End(hs, list[i]) == list[i + 1]
    ensures Wellformed(MergeHeaders(hs, list[i], list[i + 1]), RemoveAfter(list, i), head,
                       if hs[list[i + 1]].next != 0 then tail else list[i],
                       MergeOwner(owner, list[i], list[i + 1]), total)
  {
    InListHasHeader(hs, list, head, tail, i);
    InListHasHeader(hs, list, head, tail, i + 1);
    MergeChain(hs, list, head, tail, i);
    MergeTiles(hs, list, head, tail, owner, i);
    MergeAligned(hs, list, i);
    MergeSum(hs, list, head, tail, i);
    if i + 2 < |list| {
      assert Node(hs, list, i + 2);
    }
  }

  lemma Append(hs: Headers, list: seq<nat>, head: nat, tail: nat, owner: map<nat, nat>, total: nat, a: nat, size: nat,
               owner': map<nat, nat>)
    requires Wellformed(hs, list, head, tail, owner, total)
    requires a != 0 && a % ALIGN == 0 && size % ALIGN == 0
    requires forall x :: a <= x < a + HEADER_SIZE + size ==> x !in owner
    requires Claimed(owner, a, HEADER_SIZE + size, owner')
    ensures a !in list
    ensures Wellformed(AppendHeaders(hs, tail, a, size), list + [a], if tail == 0 then a else head, a,
                       owner', total + HEADER_SIZE + size)
  {
    if list != [] {
      InListHasHeader(hs, list, head, tail, |list| - 1);
    }
    AppendTiles(hs, list, tail, owner, owner', a, size);
    AppendChain(hs, list, head, tail, a, size);
    AppendAligned(hs, list, tail, a, size);
    AppendSum(hs, list, tail, a, size);
  }

  /** The blocks in use and their sizes. */
  ghost function UsedOf(hs: Headers, list: seq<nat>): map<nat, nat> {
    map a | a in list && a in hs && !hs[a].free :: hs[a].size
  }

  lemma SplitUsed(hs: Headers, list: seq<nat>, i: nat, size: nat)
    requires i < |list| && list[i] in hs && size + HEADER_SIZE <= hs[list[i]].size
    requires list[i] + HEADER_SIZE + size !in list
    ensures UsedOf(SplitHeaders(hs, list[i], size), InsertAfter(list, i, list[i] + HEADER_SIZE + size)) ==
      if hs[list[i]].free then UsedOf(hs, list) else UsedOf(hs, list)[list[i] := size]
  {
    var list' := InsertAfter(list, i, list[i] + HEADER_SIZE + size);
    assert forall a :: a in list' <==> a in list || a == list[i] + HEADER_SIZE + size;
    assert list[i] in list;
  }

  lemma MergeUsed(hs: Headers, list: seq<nat>, i: nat)
    requires Distinct(list) && i + 1 < |list| && list[i] in hs && list[i + 1] in hs
    requires hs[list[i]].free && hs[list[i + 1]].free
    ensures UsedOf(MergeHeaders(hs, list[i], list[i + 1]), RemoveAfter(list, i)) == UsedOf(hs, list)
  {
    RemovedMembers(list, i);
  }

  lemma AppendKeeps(hs: Headers, list: seq<nat>, tail: nat, a: nat, size: nat)
    requires forall b :: b in list ==> b in hs
    ensures OtherBlocks(hs, list, a, AppendHeaders(hs, tail, a, size), list + [a])
  {
    forall b | b in list && b != a
      ensures b in list + [a] && SameBlock(hs, AppendHeaders(hs, tail, a, size), b)
    {
    }
  }

  lemma AppendUsed(hs: Headers, list: seq<nat>, tail: nat, a: nat, size: nat)
    requires a !in list
    ensures UsedOf(AppendHeaders(hs, tail, a, size), list + [a]) == UsedOf(hs, list)
  {
  }

  lemma UsedSet(hs: Headers, list: seq<nat>, b: nat, free: bool)
    requires b in list && b in hs
    ensures UsedOf(hs[b := hs[b].(free := free)], list)
      == if free then UsedOf(hs, list) - {b} else UsedOf(hs, list)[b := hs[b].size]
  {
  }

  /** Whether a block is in use has no bearing on the list or the tiling. */
  lemma SetFree(hs: Headers, list: seq<nat>, head: nat, tail: nat, owner: map<nat, nat>, total: nat, b: nat, free: bool)
    requires Wellformed(hs, list, head, tail, owner, total) && b in list && b in hs
    ensures var hs' := hs[b := hs[b].(free := free)];
      && Wellformed(hs', list, head, tail, owner, total)
      && UsedOf(hs', list) == if free then UsedOf(hs, list) - {b} else UsedOf(hs, list)[b := hs[b].size]
  {
    var hs' := hs[b := hs[b].(free := free)];
    UsedSet(hs, list, b, free);
    forall i | 0 <= i < |list|
      ensures Node(hs', list, i)
    {
      assert Node(hs, list, i);
    }
    forall a | a in list
      ensures Block(hs', owner, a)
    {
      assert Block(hs, owner, a);
    }
    forall x | x in owner
      ensures Cell(hs', list, owner, x)
    {
      assert Cell(hs, list, owner, x);
    }
    forall a | a in list
      ensures AlignedAt(hs', a)
    {
      assert AlignedAt(hs, a);
    }
    SumFrame(hs, hs', list);
  }
}
