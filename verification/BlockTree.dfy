/**
 The pointer trees of COSFS. An inode has fifteen root pointers: twelve direct blocks and the
 single, double and triple indirect blocks. A path names one pointer of one tree; `Ptr` follows
 it. The ownership invariant says that following paths is injective and that the ghost map
 `owner` is exactly its inverse.
 */
module BlockTree {
  import opened Sectors

  const INODE_DIRECT := 12
  const ROOT_SLOTS := 15
  const MAX_LOGICAL := 12 + 128 + 128 * 128 + 128 * 128 * 128

  /** Every block of the volume read as a table of 128 pointers. */
  type Table = r: seq<word> | |r| == PTRS_PER_BLOCK witness seq(PTRS_PER_BLOCK, _ => 0)
  type Tables = seq<Table>

  function NullTable(): (s: Table)
    ensures forall i :: 0 <= i < PTRS_PER_BLOCK ==> s[i] == 0
  {
    seq(PTRS_PER_BLOCK, _ => 0)
  }

  /** `roots` holds direct[0..11], single_indirect, double_indirect, triple_indirect. */
  datatype Inode = Inode(size: word, roots: seq<word>, kind: byte)

  /** The pointer reached from root pointer `slot` of inode `ino` through the table indices `idx`. */
  datatype Path = Path(ino: nat, slot: nat, idx: seq<nat>)

  /** How many levels of pointer tables hang below a root slot. */
  function Depth(slot: nat): nat {
    if slot < INODE_DIRECT then 0 else slot - 11
  }

  predicate Proper(p: Path, inodeCount: nat) {
    && p.ino < inodeCount
    && p.slot < ROOT_SLOTS
    && |p.idx| <= Depth(p.slot)
    && forall i :: 0 <= i < |p.idx| ==> p.idx[i] < PTRS_PER_BLOCK
  }

  predicate WellFormed(ns: seq<Inode>) {
    forall i :: 0 <= i < |ns| ==> |ns[i].roots| == ROOT_SLOTS
  }

  /** A path of full depth ends in a data block, any other one in a pointer table. */
  predicate Leaf(p: Path) {
    |p.idx| == Depth(p.slot)
  }

  function Parent(p: Path): Path
    requires p.idx != []
  {
    p.(idx := p.idx[..|p.idx| - 1])
  }

  function Child(p: Path, i: nat): Path {
    p.(idx := p.idx + [i])
  }

  predicate IsPrefix(p: Path, q: Path) {
    p.ino == q.ino && p.slot == q.slot && p.idx <= q.idx
  }

  function Entry(t: Tables, b: nat, i: nat): word
    requires i < PTRS_PER_BLOCK
  {
    if b < |t| then t[b][i] else 0
  }

  function Ptr(ns: seq<Inode>, t: Tables, p: Path): word
    requires WellFormed(ns) && Proper(p, |ns|)
    decreases |p.idx|
  {
    if p.idx == [] then ns[p.ino].roots[p.slot]
    else
      var up := Ptr(ns, t, Parent(p));
      if up == 0 then 0 else Entry(t, up, p.idx[|p.idx| - 1])
  }

  lemma ChildInjective(p: Path, i: nat, q: Path, j: nat)
    ensures Child(p, i) == Child(q, j) <==> p == q && i == j
  {
    assert Parent(Child(p, i)) == p && Parent(Child(q, j)) == q;
  }

  function Extend(p: Path, idx: seq<nat>): Path {
    p.(idx := p.idx + idx)
  }

  lemma ExtendStep(p: Path, idx: seq<nat>)
    ensures IsPrefix(p, Extend(p, idx))
    ensures idx == [] ==> Extend(p, idx) == p
    ensures idx != [] ==>
      && Extend(Child(p, idx[0]), idx[1..]) == Extend(p, idx)
      && idx[0] == Extend(p, idx).idx[|p.idx|]
      && (forall n :: Proper(Extend(p, idx), n) ==> Proper(Child(p, idx[0]), n))
  {
    if idx != [] {
      assert p.idx + [idx[0]] + idx[1..] == p.idx + idx;
      forall n | Proper(Extend(p, idx), n)
        ensures Proper(Child(p, idx[0]), n)
      {
        assert forall i :: 0 <= i <= |p.idx| ==> (p.idx + [idx[0]])[i] == (p.idx + idx)[i];
      }
    }
  }

  lemma PtrOfChild(ns: seq<Inode>, t: Tables, p: Path, i: nat)
    requires WellFormed(ns) && Proper(p, |ns|) && Proper(Child(p, i), |ns|)
    ensures i < PTRS_PER_BLOCK
    ensures Ptr(ns, t, Child(p, i)) == if Ptr(ns, t, p) == 0 then 0 else Entry(t, Ptr(ns, t, p), i)
  {
    assert Child(p, i).idx[|p.idx|] == i && Parent(Child(p, i)) == p;
  }

  ghost predicate LivePath(ns: seq<Inode>, live: seq<bool>, p: Path) {
    |live| == |ns| && Proper(p, |ns|) && live[p.ino]
  }

  /** Following paths from live inodes and looking blocks up in `owner` are inverse to each other. */
  ghost predicate Owned(ns: seq<Inode>, live: seq<bool>, t: Tables, owner: map<nat, Path>, lo: nat, hi: nat) {
    && WellFormed(ns)
    && |live| == |ns|
    && hi <= |t|
    && 0 < lo
    && (forall b :: b in owner ==>
          lo <= b < hi && LivePath(ns, live, owner[b]) && Ptr(ns, t, owner[b]) == b)
    && (forall p :: LivePath(ns, live, p) && Ptr(ns, t, p) != 0 ==>
          Ptr(ns, t, p) in owner && owner[Ptr(ns, t, p)] == p)
  }

  /** No block is reached twice, by any two pointers of any two live inodes, at any level. */
  lemma NoAliasing(ns: seq<Inode>, live: seq<bool>, t: Tables, owner: map<nat, Path>, lo: nat, hi: nat,
                   p: Path, q: Path)
    requires Owned(ns, live, t, owner, lo, hi)
    requires LivePath(ns, live, p) && LivePath(ns, live, q)
    requires Ptr(ns, t, p) == Ptr(ns, t, q) != 0
    ensures p == q && lo <= Ptr(ns, t, p) < hi
  {
  }

  lemma {:induction false} SameRoots(ns: seq<Inode>, ns': seq<Inode>, t: Tables, p: Path)
    requires WellFormed(ns) && WellFormed(ns') && |ns| == |ns'| && Proper(p, |ns|)
    requires ns[p.ino].roots == ns'[p.ino].roots
    ensures Ptr(ns', t, p) == Ptr(ns, t, p)
    decreases |p.idx|
  {
    if p.idx != [] {
      SameRoots(ns, ns', t, Parent(p));
    }
  }

  /** Nothing hangs below a null pointer. */
  lemma {:induction false} NothingBelowNull(ns: seq<Inode>, t: Tables, p: Path, q: Path)
    requires WellFormed(ns) && Proper(p, |ns|) && Proper(q, |ns|)
    requires IsPrefix(p, q) && Ptr(ns, t, p) == 0
    ensures Ptr(ns, t, q) == 0
    decreases |q.idx|
  {
    if p != q {
      assert IsPrefix(p, Parent(q)) by { assert q.idx[..|q.idx| - 1][..|p.idx|] == q.idx[..|p.idx|]; }
      NothingBelowNull(ns, t, p, Parent(q));
    }
  }

  /** Overwriting a data block, or a block that nobody owns, moves no pointer. */
  lemma {:induction false} WriteDataFrame(ns: seq<Inode>, live: seq<bool>, t: Tables, owner: map<nat, Path>,
                                          lo: nat, hi: nat, b: nat, s: Table, q: Path)
    requires Owned(ns, live, t, owner, lo, hi)
    requires b < |t| && (b in owner ==> Leaf(owner[b]))
    requires LivePath(ns, live, q)
    ensures Ptr(ns, t[b := s], q) == Ptr(ns, t, q)
    decreases |q.idx|
  {
    if q.idx != [] {
      WriteDataFrame(ns, live, t, owner, lo, hi, b, s, Parent(q));
    }
  }

  lemma WriteDataOwned(ns: seq<Inode>, live: seq<bool>, t: Tables, owner: map<nat, Path>,
                       lo: nat, hi: nat, b: nat, s: Table)
    requires Owned(ns, live, t, owner, lo, hi)
    requires b < |t| && (b in owner ==> Leaf(owner[b]))
    ensures Owned(ns, live, t[b := s], owner, lo, hi)
    ensures forall q :: LivePath(ns, live, q) ==> Ptr(ns, t[b := s], q) == Ptr(ns, t, q)
  {
    forall q | LivePath(ns, live, q)
      ensures Ptr(ns, t[b := s], q) == Ptr(ns, t, q)
    {
      WriteDataFrame(ns, live, t, owner, lo, hi, b, s, q);
    }
  }

  /** A block fit to be linked in at `p`: inside the data area, owned by nobody, and all null if it is a table. */
  ghost predicate Fresh(t: Tables, owner: map<nat, Path>, lo: nat, hi: nat, p: Path, f: word) {
    && lo <= f < hi <= |t|
    && f !in owner
    && (!Leaf(p) ==> forall i :: 0 <= i < PTRS_PER_BLOCK ==> Entry(t, f, i) == 0)
  }

  /** Pointing the null pointer at `p` to `f` changes that one pointer and no other. */
  ghost predicate Linked(ns: seq<Inode>, live: seq<bool>, t: Tables, ns': seq<Inode>, t': Tables, p: Path, f: word)
    requires WellFormed(ns) && WellFormed(ns') && |ns| == |ns'|
  {
    forall q :: LivePath(ns, live, q) ==> Ptr(ns', t', q) == if q == p then f else Ptr(ns, t, q)
  }

  function SetRoot(ns: seq<Inode>, ino: nat, slot: nat, f: word): (ns': seq<Inode>)
    requires WellFormed(ns) && ino < |ns| && slot < ROOT_SLOTS
    ensures WellFormed(ns') && |ns'| == |ns|
  {
    ns[ino := ns[ino].(roots := ns[ino].roots[slot := f])]
  }

  function SetEntry(t: Tables, b: nat, i: nat, f: word): (t': Tables)
    requires b < |t| && i < PTRS_PER_BLOCK
    ensures |t'| == |t|
  {
    t[b := t[b][i := f]]
  }

  lemma {:induction false} LinkRootAt(ns: seq<Inode>, live: seq<bool>, t: Tables, owner: map<nat, Path>,
                                      lo: nat, hi: nat, p: Path, f: word, q: Path)
    requires Owned(ns, live, t, owner, lo, hi)
    requires LivePath(ns, live, p) && p.idx == [] && Ptr(ns, t, p) == 0
    requires Fresh(t, owner, lo, hi, p, f)
    requires LivePath(ns, live, q)
    ensures Ptr(SetRoot(ns, p.ino, p.slot, f), t, q) == if q == p then f else Ptr(ns, t, q)
    decreases |q.idx|
  {
    if q.idx != [] {
      LinkRootAt(ns, live, t, owner, lo, hi, p, f, Parent(q));
    }
  }

  lemma {:induction false} LinkEntryAt(ns: seq<Inode>, live: seq<bool>, t: Tables, p: Path, i: nat, f: word, q: Path)
    requires WellFormed(ns) && i < PTRS_PER_BLOCK
    requires LivePath(ns, live, p) && LivePath(ns, live, Child(p, i)) && LivePath(ns, live, q)
    requires Ptr(ns, t, p) != 0 && Ptr(ns, t, p) != f && Ptr(ns, t, p) < |t| && Ptr(ns, t, Child(p, i)) == 0
    requires forall r :: LivePath(ns, live, r) && Ptr(ns, t, r) == Ptr(ns, t, p) ==> r == p
    requires !Leaf(Child(p, i)) ==> forall j :: 0 <= j < PTRS_PER_BLOCK ==> Entry(t, f, j) == 0
    ensures Ptr(ns, SetEntry(t, Ptr(ns, t, p), i, f), q) == if q == Child(p, i) then f else Ptr(ns, t, q)
    decreases |q.idx|
  {
    if q.idx != [] {
      var up, j := Parent(q), q.idx[|q.idx| - 1];
      assert q == Child(up, j);
      LinkEntryAt(ns, live, t, p, i, f, up);
      ChildInjective(up, j, p, i);
      PtrOfChild(ns, t, up, j);
      PtrOfChild(ns, SetEntry(t, Ptr(ns, t, p), i, f), up, j);
      if up == Child(p, i) {
        assert Entry(t, f, j) == 0;
      }
    }
  }

  lemma LinkRoot(ns: seq<Inode>, live: seq<bool>, t: Tables, owner: map<nat, Path>, lo: nat, hi: nat, p: Path, f: word)
    requires Owned(ns, live, t, owner, lo, hi)
    requires LivePath(ns, live, p) && p.idx == [] && Ptr(ns, t, p) == 0
    requires Fresh(t, owner, lo, hi, p, f)
    ensures Linked(ns, live, t, SetRoot(ns, p.ino, p.slot, f), t, p, f)
    ensures Owned(SetRoot(ns, p.ino, p.slot, f), live, t, owner[f := p], lo, hi)
  {
    forall q | LivePath(ns, live, q)
      ensures Ptr(SetRoot(ns, p.ino, p.slot, f), t, q) == if q == p then f else Ptr(ns, t, q)
    {
      LinkRootAt(ns, live, t, owner, lo, hi, p, f, q);
    }
  }

  lemma LinkEntry(ns: seq<Inode>, live: seq<bool>, t: Tables, owner: map<nat, Path>, lo: nat, hi: nat,
                  p: Path, i: nat, f: word)
    requires Owned(ns, live, t, owner, lo, hi)
    requires i < PTRS_PER_BLOCK && LivePath(ns, live, p) && LivePath(ns, live, Child(p, i))
    requires Ptr(ns, t, p) != 0 && Ptr(ns, t, Child(p, i)) == 0
    requires Fresh(t, owner, lo, hi, Child(p, i), f)
    ensures Linked(ns, live, t, ns, SetEntry(t, Ptr(ns, t, p), i, f), Child(p, i), f)
    ensures Owned(ns, live, SetEntry(t, Ptr(ns, t, p), i, f), owner[f := Child(p, i)], lo, hi)
  {
    forall q | LivePath(ns, live, q)
      ensures Ptr(ns, SetEntry(t, Ptr(ns, t, p), i, f), q) == if q == Child(p, i) then f else Ptr(ns, t, q)
    {
      LinkEntryAt(ns, live, t, p, i, f, q);
    }
  }

  /**
   Linking blocks in along `target` only turns null pointers on the way to `target` into blocks, moves
   nothing else, and leaves the bytes of every data block that was already owned alone.
   */
  ghost predicate Grown(ns: seq<Inode>, live: seq<bool>, t: Tables, owner: map<nat, Path>,
                        ns': seq<Inode>, t': Tables, owner': map<nat, Path>, target: Path)
  {
    && WellFormed(ns) && WellFormed(ns') && |ns'| == |ns| && |t'| == |t|
    && (forall i :: 0 <= i < |ns| ==> ns'[i].size == ns[i].size && ns'[i].kind == ns[i].kind)
    && (forall i :: 0 <= i < |ns| && i != target.ino ==> ns'[i] == ns[i])
    && (forall q :: LivePath(ns, live, q) ==>
          Ptr(ns', t', q) == Ptr(ns, t, q) || (Ptr(ns, t, q) == 0 && IsPrefix(q, target)))
    && (forall b :: b in owner ==> b in owner' && owner'[b] == owner[b])
  }

  /** A new table is zeroed before it is linked in; a new data block is linked in as it is. */
  function Prepared(t: Tables, p: Path, f: word): (t': Tables)
    requires f < |t|
    ensures |t'| == |t|
  {
    if Leaf(p) then t else t[f := NullTable()]
  }

  lemma PreparedFresh(ns: seq<Inode>, live: seq<bool>, t: Tables, owner: map<nat, Path>, lo: nat, hi: nat,
                      p: Path, f: word)
    requires Owned(ns, live, t, owner, lo, hi)
    requires lo <= f < hi && f !in owner
    ensures Owned(ns, live, Prepared(t, p, f), owner, lo, hi)
    ensures Fresh(Prepared(t, p, f), owner, lo, hi, p, f)
    ensures forall q :: LivePath(ns, live, q) ==> Ptr(ns, Prepared(t, p, f), q) == Ptr(ns, t, q)
  {
    WriteDataOwned(ns, live, t, owner, lo, hi, f, NullTable());
  }

  lemma LinkRootStep(ns: seq<Inode>, live: seq<bool>, t: Tables, owner: map<nat, Path>, lo: nat, hi: nat,
                     p: Path, f: word)
    requires Owned(ns, live, t, owner, lo, hi)
    requires LivePath(ns, live, p) && p.idx == [] && Ptr(ns, t, p) == 0
    requires lo <= f < hi && f !in owner
    ensures Owned(SetRoot(ns, p.ino, p.slot, f), live, Prepared(t, p, f), owner[f := p], lo, hi)
    ensures Grown(ns, live, t, owner, SetRoot(ns, p.ino, p.slot, f), Prepared(t, p, f), owner[f := p], p)
  {
    PreparedFresh(ns, live, t, owner, lo, hi, p, f);
    LinkRoot(ns, live, Prepared(t, p, f), owner, lo, hi, p, f);
  }

  lemma LinkEntryStep(ns: seq<Inode>, live: seq<bool>, t: Tables, owner: map<nat, Path>, lo: nat, hi: nat,
                      p: Path, i: nat, f: word)
    requires Owned(ns, live, t, owner, lo, hi)
    requires i < PTRS_PER_BLOCK && LivePath(ns, live, p) && !Leaf(p)
    requires LivePath(ns, live, Child(p, i))
    requires Ptr(ns, t, p) != 0 && Ptr(ns, t, Child(p, i)) == 0
    requires lo <= f < hi && f !in owner
    ensures Ptr(ns, t, p) < |t|
    ensures var t' := SetEntry(Prepared(t, Child(p, i), f), Ptr(ns, t, p), i, f);
      && Owned(ns, live, t', owner[f := Child(p, i)], lo, hi)
      && Grown(ns, live, t, owner, ns, t', owner[f := Child(p, i)], Child(p, i))
      && Ptr(ns, t', Child(p, i)) == f
  {
    var q := Child(p, i);
    PreparedFresh(ns, live, t, owner, lo, hi, q, f);
    LinkEntry(ns, live, Prepared(t, q, f), owner, lo, hi, p, i, f);
  }

  lemma ZeroSuperblock(ns: seq<Inode>, live: seq<bool>, t: Tables, owner: map<nat, Path>, lo: nat, hi: nat, p: Path)
    requires Owned(ns, live, t, owner, lo, hi) && 0 < |t|
    ensures Owned(ns, live, t[0 := NullTable()], owner, lo, hi)
    ensures Grown(ns, live, t, owner, ns, t, owner, p)
    ensures Grown(ns, live, t, owner, ns, t[0 := NullTable()], owner, p)
    ensures forall q :: LivePath(ns, live, q) ==> Ptr(ns, t[0 := NullTable()], q) == Ptr(ns, t, q)
  {
    WriteDataOwned(ns, live, t, owner, lo, hi, 0, NullTable());
  }

  lemma GrownRefl(ns: seq<Inode>, live: seq<bool>, t: Tables, owner: map<nat, Path>, lo: nat, hi: nat, p: Path)
    requires Owned(ns, live, t, owner, lo, hi)
    ensures Grown(ns, live, t, owner, ns, t, owner, p)
  {
  }

  lemma GrownWeaken(ns: seq<Inode>, live: seq<bool>, t: Tables, owner: map<nat, Path>,
                    ns': seq<Inode>, t': Tables, owner': map<nat, Path>, p: Path, q: Path)
    requires Grown(ns, live, t, owner, ns', t', owner', p) && IsPrefix(p, q)
    ensures Grown(ns, live, t, owner, ns', t', owner', q)
  {
    GrownTransitive(ns, live, t, owner, ns', t', owner', ns', t', owner', p, q);
  }

  lemma GrownTransitive(ns: seq<Inode>, live: seq<bool>, t: Tables, owner: map<nat, Path>,
                        ns': seq<Inode>, t': Tables, owner': map<nat, Path>,
                        ns'': seq<Inode>, t'': Tables, owner'': map<nat, Path>, p: Path, q: Path)
    requires Grown(ns, live, t, owner, ns', t', owner', p) && Grown(ns', live, t', owner', ns'', t'', owner'', q)
    requires IsPrefix(p, q)
    ensures Grown(ns, live, t, owner, ns'', t'', owner'', q)
  {
    forall r | LivePath(ns, live, r)
      ensures Ptr(ns'', t'', r) == Ptr(ns, t, r) || (Ptr(ns, t, r) == 0 && IsPrefix(r, q))
    {
      if IsPrefix(r, p) {
        assert r.idx <= q.idx by { assert q.idx[..|p.idx|][..|r.idx|] == q.idx[..|r.idx|]; }
      }
    }
  }

  /** How many tables are missing below `p` on the way along `idx` to a data block. */
  ghost function Missing(ns: seq<Inode>, t: Tables, p: Path, idx: seq<nat>): nat
    requires WellFormed(ns) && Proper(Extend(p, idx), |ns|)
    decreases |idx|
  {
    ExtendStep(p, idx);
    if |idx| <= 1 then 0
    else if Ptr(ns, t, Child(p, idx[0])) == 0 then |idx| - 1
    else Missing(ns, t, Child(p, idx[0]), idx[1..])
  }

  /** How many tables are missing on the way to a data block. */
  ghost function MissingTables(ns: seq<Inode>, t: Tables, q: Path): nat
    requires WellFormed(ns) && Proper(q, |ns|)
  {
    var root := Path(q.ino, q.slot, []);
    assert Extend(root, q.idx) == q;
    if Ptr(ns, t, root) == 0 then |q.idx| else Missing(ns, t, root, q.idx)
  }

  /** Below a pointer that was null, all tables are missing, and still are when that pointer is set. */
  lemma MissingBelow(ns: seq<Inode>, live: seq<bool>, t: Tables, owner: map<nat, Path>,
                     ns': seq<Inode>, t': Tables, owner': map<nat, Path>, p: Path, idx: seq<nat>)
    requires Grown(ns, live, t, owner, ns', t', owner', p) && LivePath(ns, live, p)
    requires LivePath(ns, live, Extend(p, idx))
    requires Ptr(ns, t, p) == 0
    ensures Missing(ns', t', p, idx) == if idx == [] then 0 else |idx| - 1
  {
    ExtendStep(p, idx);
    if |idx| > 1 {
      var c := Child(p, idx[0]);
      NothingBelowNull(ns, t, p, c);
      assert LivePath(ns, live, c) && !IsPrefix(c, p);
    }
  }

  /** The tables still missing after the first step along `idx`, against the free blocks before it and after it. */
  lemma MissingAfterStep(ns: seq<Inode>, live: seq<bool>, t: Tables, owner: map<nat, Path>, t': Tables,
                         owner': map<nat, Path>, p: Path, idx: seq<nat>, r: word, free: nat, free': nat)
    requires WellFormed(ns) && idx != [] && Proper(Extend(p, idx), |ns|)
    requires LivePath(ns, live, Child(p, idx[0])) && LivePath(ns, live, Extend(Child(p, idx[0]), idx[1..]))
    requires r == Ptr(ns, t', Child(p, idx[0]))
    requires if Ptr(ns, t, Child(p, idx[0])) != 0 then t' == t && free' == free
             else
               && Grown(ns, live, t, owner, ns, t', owner', Child(p, idx[0]))
               && (r == 0 <==> free == 0) && (r != 0 ==> free' == free - 1)
    ensures (free < Missing(ns, t, p, idx)) ==
      if r == 0 then |idx| > 1 else free' < Missing(ns, t', Child(p, idx[0]), idx[1..])
  {
    ExtendStep(p, idx);
    if Ptr(ns, t, Child(p, idx[0])) == 0 {
      MissingBelow(ns, live, t, owner, ns, t', owner', Child(p, idx[0]), idx[1..]);
    }
  }

  /** The same for the root pointer. */
  lemma MissingAfterRoot(ns: seq<Inode>, live: seq<bool>, t: Tables, owner: map<nat, Path>, ns': seq<Inode>, t': Tables,
                         owner': map<nat, Path>, root: Path, q: Path, r: word, free: nat, free': nat)
    requires LivePath(ns, live, q) && root == q.(idx := []) && LivePath(ns, live, root)
    requires Grown(ns, live, t, owner, ns', t', owner', root) && r == Ptr(ns', t', root)
    requires if Ptr(ns, t, root) != 0 then ns' == ns && t' == t && free' == free
             else (r == 0 <==> free == 0) && (r != 0 ==> free' == free - 1)
    ensures Extend(root, q.idx) == q
    ensures (free < MissingTables(ns, t, q)) == if r == 0 then q.idx != [] else free' < Missing(ns', t', root, q.idx)
  {
    assert Extend(root, q.idx) == q;
    if Ptr(ns, t, root) == 0 {
      MissingBelow(ns, live, t, owner, ns', t', owner', root, q.idx);
    }
  }

  /** The pointer that get_physical_block follows for the `l`-th block of a file. */
  function PathOf(ino: nat, l: nat): (p: Path)
    requires l < MAX_LOGICAL
    ensures Leaf(p) && forall n :: ino < n ==> Proper(p, n)
  {
    if l < 12 then Path(ino, l, [])
    else if l < 140 then Path(ino, 12, [l - 12])
    else if l < 140 + 128 * 128 then Path(ino, 13, [(l - 140) / 128, (l - 140) % 128])
    else
      var r := l - 140 - 128 * 128;
      Path(ino, 14, [r / (128 * 128), r % (128 * 128) / 128, r % (128 * 128) % 128])
  }

  /** The block number that a path of full depth stands for. */
  function LogicalOf(p: Path): nat
    requires Leaf(p)
  {
    if p.slot < 12 then p.slot
    else if p.slot == 12 then 12 + p.idx[0]
    else if p.slot == 13 then 140 + 128 * p.idx[0] + p.idx[1]
    else if p.slot == 14 then 140 + 128 * 128 + 128 * 128 * p.idx[0] + 128 * p.idx[1] + p.idx[2]
    else 0
  }

  /** The four addressing ranges do not overlap: every block number has a path of its own. */
  lemma PathOfRoundTrip(ino: nat, l: nat)
    requires l < MAX_LOGICAL
    ensures LogicalOf(PathOf(ino, l)) == l
  {
    if l >= 140 + 128 * 128 {
      var r := l - 140 - 128 * 128;
      var m := r % (128 * 128);
      assert r == 128 * 128 * (r / (128 * 128)) + m;
      assert m == 128 * (m / 128) + m % 128;
    }
  }

  /** Every path of full depth is the path of a block number. */
  lemma LogicalOfRoundTrip(p: Path, n: nat)
    requires Proper(p, n) && Leaf(p)
    ensures LogicalOf(p) < MAX_LOGICAL && PathOf(p.ino, LogicalOf(p)) == p
  {
    var idx := p.idx;
    if p.slot < 12 {
      assert idx == [];
    } else if p.slot == 12 {
      assert idx == [idx[0]];
    } else if p.slot == 13 {
      assert idx == [idx[0], idx[1]];
      Digits(idx[0], idx[1]);
    } else {
      assert idx == [idx[0], idx[1], idx[2]];
      ThreeDigits(idx[0], idx[1], idx[2]);
      Digits(idx[1], idx[2]);
    }
  }

  lemma Digits(a: nat, b: nat)
    requires b < 128
    ensures (128 * a + b) / 128 == a && (128 * a + b) % 128 == b
  {
  }

  lemma ThreeDigits(a: nat, b: nat, c: nat)
    requires b < 128 && c < 128
    ensures var r := 128 * 128 * a + 128 * b + c;
      r / (128 * 128) == a && r % (128 * 128) == 128 * b + c
  {
  }

  // ---- what a range of blocks takes ----

  /** The pointers on the way to `p`, and that at `p`. */
  ghost function Cuts(p: Path): set<Path> {
    set k | 0 <= k <= |p.idx| :: p.(idx := p.idx[..k])
  }

  lemma CutsArePrefixes(p: Path, q: Path)
    ensures q in Cuts(p) <==> IsPrefix(q, p)
  {
    if IsPrefix(q, p) {
      assert q == p.(idx := p.idx[..|q.idx|]);
    }
  }

  /** The pointers on the way to the blocks `a` to before `b` of a file. */
  ghost function Way(ino: nat, a: nat, b: nat): set<Path>
    requires b <= MAX_LOGICAL
  {
    if b <= a then {} else Way(ino, a, b - 1) + Cuts(PathOf(ino, b - 1))
  }

  lemma {:induction false} WayProper(ino: nat, a: nat, b: nat, q: Path, n: nat)
    requires b <= MAX_LOGICAL && q in Way(ino, a, b) && ino < n
    ensures Proper(q, n) && q.ino == ino
  {
    if q in Cuts(PathOf(ino, b - 1)) {
      CutsArePrefixes(PathOf(ino, b - 1), q);
    } else {
      WayProper(ino, a, b - 1, q, n);
    }
  }

  lemma {:induction false} WayWider(ino: nat, a: nat, m: nat, b: nat)
    requires m <= b <= MAX_LOGICAL
    ensures Way(ino, a, m) <= Way(ino, a, b)
  {
    if m < b {
      WayWider(ino, a, m, b - 1);
    }
  }

  /** The pointers that are still null on the way to the blocks `a` to before `b` of a file. */
  ghost function Lacking(ns: seq<Inode>, t: Tables, ino: nat, a: nat, b: nat): set<Path>
    requires WellFormed(ns) && b <= MAX_LOGICAL
  {
    set q | q in Way(ino, a, b) && Proper(q, |ns|) && Ptr(ns, t, q) == 0
  }

  lemma LackingIsNotOwned(ns: seq<Inode>, live: seq<bool>, t: Tables, owner: map<nat, Path>, lo: nat, hi: nat,
                          ino: nat, a: nat, b: nat)
    requires Owned(ns, live, t, owner, lo, hi) && ino < |ns| && live[ino] && b <= MAX_LOGICAL
    ensures Lacking(ns, t, ino, a, b) == Way(ino, a, b) - owner.Values
  {
    forall q | q in Way(ino, a, b)
      ensures LivePath(ns, live, q) && (Ptr(ns, t, q) != 0 <==> q in owner.Values)
    {
      WayProper(ino, a, b, q, |ns|);
      assert LivePath(ns, live, q);
      if q in owner.Values {
        var x :| x in owner && owner[x] == q;
      }
    }
  }

  /** Owned blocks stay so. Those that came to be owned are on the way to `target`, on all of it if it is reached. */
  ghost predicate Took(owner: map<nat, Path>, owner': map<nat, Path>, target: Path) {
    && (forall b :: b in owner ==> b in owner' && owner'[b] == owner[b])
    && (forall b :: b in owner' && b !in owner ==> owner'[b] in Cuts(target))
    && (target in owner'.Values ==> Cuts(target) <= owner'.Values)
  }

  lemma GrownTook(ns: seq<Inode>, live: seq<bool>, t: Tables, owner: map<nat, Path>,
                  ns': seq<Inode>, t': Tables, owner': map<nat, Path>, lo: nat, hi: nat, target: Path)
    requires Owned(ns, live, t, owner, lo, hi) && Owned(ns', live, t', owner', lo, hi)
    requires Grown(ns, live, t, owner, ns', t', owner', target) && LivePath(ns, live, target)
    ensures Took(owner, owner', target) && (target in owner'.Values <==> Ptr(ns', t', target) != 0)
  {
    forall b | b in owner' && b !in owner
      ensures owner'[b] in Cuts(target)
    {
      assert LivePath(ns, live, owner'[b]);
      CutsArePrefixes(target, owner'[b]);
    }
    if target in owner'.Values {
      var x :| x in owner' && owner'[x] == target;
      forall q | q in Cuts(target)
        ensures q in owner'.Values
      {
        CutsArePrefixes(target, q);
        assert LivePath(ns', live, q);
        if Ptr(ns', t', q) == 0 {
          NothingBelowNull(ns', t', q, target);
        }
      }
    }
  }

  /** Owned blocks stay so, and those that came to be owned are on the way to the blocks `a` to before `m`. */
  ghost predicate Spent(owner: map<nat, Path>, owner': map<nat, Path>, ino: nat, a: nat, m: nat)
    requires m <= MAX_LOGICAL
  {
    && (forall b :: b in owner ==> b in owner' && owner'[b] == owner[b])
    && (forall b :: b in owner' && b !in owner ==> owner'[b] in Way(ino, a, m))
  }

  lemma SpentStep(o0: map<nat, Path>, o1: map<nat, Path>, o2: map<nat, Path>, ino: nat, a: nat, m: nat)
    requires a <= m < MAX_LOGICAL && Spent(o0, o1, ino, a, m) && Took(o1, o2, PathOf(ino, m))
    requires Way(ino, a, m) <= o1.Values
    ensures Spent(o0, o2, ino, a, m + 1)
    ensures Way(ino, a, m + 1) <= o2.Values <==> PathOf(ino, m) in o2.Values
  {
    forall q | q in o1.Values
      ensures q in o2.Values
    {
      var x :| x in o1 && o1[x] == q;
    }
    CutsArePrefixes(PathOf(ino, m), PathOf(ino, m));
    forall b | b in o2 && b !in o0
      ensures o2[b] in Way(ino, a, m + 1)
    {
    }
  }

  lemma SpentWider(o0: map<nat, Path>, o1: map<nat, Path>, ino: nat, a: nat, m: nat, b: nat)
    requires m <= b <= MAX_LOGICAL && Spent(o0, o1, ino, a, m)
    ensures Spent(o0, o1, ino, a, b)
    ensures !(Way(ino, a, m) <= o1.Values) ==> !(Way(ino, a, b) <= o1.Values)
  {
    WayWider(ino, a, m, b);
  }

  /** Different blocks have different paths. */
  lemma {:induction false} AsManyPaths(owner: map<nat, Path>)
    requires forall x, y :: x in owner && y in owner && owner[x] == owner[y] ==> x == y
    ensures |owner.Values| == |owner|
  {
    if owner != map[] {
      var x :| x in owner;
      var rest := owner - {x};
      AsManyPaths(rest);
      assert owner.Keys == rest.Keys + {x};
      forall q | q in owner.Values && q != owner[x]
        ensures q in rest.Values
      {
        var y :| y in owner && owner[y] == q;
        assert y in rest && rest[y] == q;
      }
      assert owner.Values == rest.Values + {owner[x]};
    }
  }

  /** A range of blocks is reached in full exactly if there is room for what it lacks; then that is what it takes. */
  lemma RoomExactly(o0: map<nat, Path>, o1: map<nat, Path>, ino: nat, a: nat, b: nat, size: nat)
    requires b <= MAX_LOGICAL && Spent(o0, o1, ino, a, b) && |o1| <= size
    requires Way(ino, a, b) <= o1.Values || |o1| == size
    requires forall x, y :: x in o0 && y in o0 && o0[x] == o0[y] ==> x == y
    requires forall x, y :: x in o1 && y in o1 && o1[x] == o1[y] ==> x == y
    ensures Way(ino, a, b) <= o1.Values <==> |o0| + |Way(ino, a, b) - o0.Values| <= size
    ensures Way(ino, a, b) <= o1.Values ==> |o1| == |o0| + |Way(ino, a, b) - o0.Values|
  {
    AsManyPaths(o0);
    AsManyPaths(o1);
    SpentValues(o0, o1, ino, a, b);
    RoomForSets(o0.Values, o1.Values, Way(ino, a, b), size);
  }

  lemma SpentValues(o0: map<nat, Path>, o1: map<nat, Path>, ino: nat, a: nat, b: nat)
    requires b <= MAX_LOGICAL && Spent(o0, o1, ino, a, b)
    ensures o0.Values <= o1.Values <= o0.Values + Way(ino, a, b)
  {
    forall q | q in o0.Values
      ensures q in o1.Values
    {
      var x :| x in o0 && o0[x] == q;
    }
    forall q | q in o1.Values
      ensures q in o0.Values + Way(ino, a, b)
    {
      var x :| x in o1 && o1[x] == q;
    }
  }

  lemma RoomForSets(v0: set<Path>, v1: set<Path>, way: set<Path>, size: nat)
    requires v0 <= v1 <= v0 + way && |v1| <= size && (way <= v1 || |v1| == size)
    ensures way <= v1 <==> |v0| + |way - v0| <= size
    ensures way <= v1 ==> |v1| == |v0| + |way - v0|
  {
    var all := v0 + way;
    assert all == v0 + (way - v0);
    assert all == v1 + (all - v1);
    assert way <= v1 <==> all - v1 == {};
  }

  /** `q` lies strictly below `p`, under one of its first `n` entries. */
  predicate BelowFirst(p: Path, n: nat, q: Path) {
    IsPrefix(p, q) && |p.idx| < |q.idx| && q.idx[|p.idx|] < n
  }

  lemma BelowNext(p: Path, i: nat, q: Path)
    ensures BelowFirst(p, i + 1, q) <==> BelowFirst(p, i, q) || IsPrefix(Child(p, i), q)
  {
    if IsPrefix(p, q) && |p.idx| < |q.idx| && q.idx[|p.idx|] == i {
      assert q.idx[..|p.idx| + 1] == p.idx + [i];
    }
    if IsPrefix(Child(p, i), q) {
      assert (p.idx + [i])[|p.idx|] == q.idx[|p.idx|];
      assert q.idx[..|p.idx|] == (p.idx + [i])[..|p.idx|] == p.idx;
    }
  }

  lemma SelfOrBelow(ns: seq<Inode>, live: seq<bool>, t: Tables, owner: map<nat, Path>, lo: nat, hi: nat, p: Path)
    requires Owned(ns, live, t, owner, lo, hi) && LivePath(ns, live, p) && Ptr(ns, t, p) != 0
    ensures forall x :: x in owner ==>
      (IsPrefix(p, owner[x]) <==> x == Ptr(ns, t, p) || BelowFirst(p, PTRS_PER_BLOCK, owner[x]))
    ensures Leaf(p) ==> forall x :: x in owner ==> !BelowFirst(p, PTRS_PER_BLOCK, owner[x])
  {
    forall x | x in owner
      ensures IsPrefix(p, owner[x]) <==> x == Ptr(ns, t, p) || BelowFirst(p, PTRS_PER_BLOCK, owner[x])
    {
      var q := owner[x];
      if IsPrefix(p, q) && |q.idx| == |p.idx| {
        assert q.idx == p.idx && q == p;
      }
    }
  }

  lemma NothingOwnedBelow(ns: seq<Inode>, live: seq<bool>, t: Tables, owner: map<nat, Path>, lo: nat, hi: nat, p: Path)
    requires Owned(ns, live, t, owner, lo, hi) && LivePath(ns, live, p) && Ptr(ns, t, p) == 0
    ensures forall x :: x in owner ==> !IsPrefix(p, owner[x])
  {
    forall x | x in owner
      ensures !IsPrefix(p, owner[x])
    {
      if IsPrefix(p, owner[x]) {
        NothingBelowNull(ns, t, p, owner[x]);
      }
    }
  }

  /** What is left of `owner` when inode `ino` goes. */
  ghost function Without(owner: map<nat, Path>, ino: nat): map<nat, Path> {
    map b | b in owner && owner[b].ino != ino :: owner[b]
  }

  /** Dropping an inode drops exactly the blocks of its own trees. */
  lemma DropInode(ns: seq<Inode>, live: seq<bool>, t: Tables, owner: map<nat, Path>, lo: nat, hi: nat, ino: nat)
    requires Owned(ns, live, t, owner, lo, hi) && ino < |ns|
    ensures Owned(ns, live[ino := false], t, Without(owner, ino), lo, hi)
  {
    var live' := live[ino := false];
    forall p | LivePath(ns, live', p)
      ensures LivePath(ns, live, p) && p.ino != ino
    {
    }
  }

  /** An inode without any block pointer may come to life at any unused index. */
  lemma AddInode(ns: seq<Inode>, live: seq<bool>, t: Tables, owner: map<nat, Path>, lo: nat, hi: nat, ino: nat,
                 node: Inode)
    requires Owned(ns, live, t, owner, lo, hi) && ino < |ns| && !live[ino]
    requires |node.roots| == ROOT_SLOTS && forall s :: 0 <= s < ROOT_SLOTS ==> node.roots[s] == 0
    ensures Owned(ns[ino := node], live[ino := true], t, owner, lo, hi)
    ensures forall q :: LivePath(ns, live, q) ==> Ptr(ns[ino := node], t, q) == Ptr(ns, t, q)
    ensures forall q :: LivePath(ns[ino := node], live[ino := true], q) && q.ino == ino ==>
      Ptr(ns[ino := node], t, q) == 0
  {
    var ns', live' := ns[ino := node], live[ino := true];
    forall q | LivePath(ns', live', q)
      ensures q.ino == ino ==> Ptr(ns', t, q) == 0
      ensures q.ino != ino ==> LivePath(ns, live, q) && Ptr(ns', t, q) == Ptr(ns, t, q)
    {
      if q.ino == ino {
        NothingBelowNull(ns', t, q.(idx := []), q);
      } else {
        SameRoots(ns, ns', t, q);
      }
    }
  }
}
