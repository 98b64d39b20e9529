/** The header that remembers the mounts, and the boot that restores them (vfs.c). */
module VfsBoot {
  import opened Common
  import opened VfsPaths
  import opened VfsMounts
  import opened Vfs

  const HEADER_MOUNTS := 6

  /** How a drive is told from others: its port and whether it is the second on it. */
  datatype Id = Id(base: nat, slave: bool)

  datatype Record = Record(id: Id, path: string)

  /** The drives are told apart by their ids. */
  ghost predicate Distinct(ids: seq<Id>) {
    forall i, j :: 0 <= i < j < |ids| ==> ids[i] != ids[j]
  }

  /** `list` has the slots of all mounts but the root, each once, from the oldest to the newest. */
  ghost predicate Listed(mounts: Mounts, list: seq<nat>) {
    && (forall k :: 0 <= k < |list| ==> Used(mounts, list[k]) && !mounts[list[k]].isRoot)
    && (forall i :: Used(mounts, i) && !mounts[i].isRoot ==> i in list)
    && (forall k, l :: 0 <= k < l < |list| ==> mounts[list[k]].order < mounts[list[l]].order)
  }

  /** The list names mounts of drives that are there. */
  predicate Known(mounts: Mounts, ids: seq<Id>, list: seq<nat>) {
    forall k :: 0 <= k < |list| ==> list[k] < |mounts| && mounts[list[k]].Mount? && mounts[list[k]].drive < |ids|
  }

  function Records(mounts: Mounts, ids: seq<Id>, list: seq<nat>): (r: seq<Record>)
    requires Known(mounts, ids, list)
    ensures |r| == |list|
    ensures forall k :: 0 <= k < |list| ==> r[k] == Record(ids[mounts[list[k]].drive], mounts[list[k]].path)
  {
    seq(|list|, k requires 0 <= k < |list| => Record(ids[mounts[list[k]].drive], mounts[list[k]].path))
  }

  // ---- persist ----

  /** The mounts that the header remembers. */
  ghost predicate Remembered(mounts: Mounts, i: int) {
    Used(mounts, i) && !mounts[i].isRoot && TargetOk(mounts[i].path)
  }

  /** The slots of the mounts to remember, in table order. */
  method Collect(mounts: Mounts) returns (list: seq<nat>)
    ensures forall i {:trigger i in list} :: i in list <==> Remembered(mounts, i)
    ensures forall k, l :: 0 <= k < l < |list| ==> list[k] != list[l]
  {
    list := [];
    var i := 0;
    while i < |mounts|
      invariant 0 <= i <= |mounts|
      invariant forall j {:trigger j in list} :: j in list <==> j < i && Remembered(mounts, j)
      invariant forall k, l :: 0 <= k < l < |list| ==> list[k] != list[l]
    {
      var m := mounts[i];
      if m.Mount? && !m.isRoot && 1 < |m.path| < MOUNT_PATH_MAX && m.path[0] == '/' {
        assert i !in list;
        list := list + [i];
      }
      i := i + 1;
    }
  }

  ghost predicate AllUsed(mounts: Mounts, list: seq<nat>) {
    forall k :: 0 <= k < |list| ==> Used(mounts, list[k])
  }

  /** The list is sorted up to `a`, and what follows is not older. */
  ghost predicate SortedTo(mounts: Mounts, list: seq<nat>, a: nat)
    requires AllUsed(mounts, list)
  {
    forall k, l :: 0 <= k < a && k < l < |list| ==> mounts[list[k]].order <= mounts[list[l]].order
  }

  /** The exchange sort by age. */
  method SortByAge(mounts: Mounts, unsorted: seq<nat>) returns (list: seq<nat>)
    requires AllUsed(mounts, unsorted)
    ensures AllUsed(mounts, list) && SortedTo(mounts, list, |list|) && multiset(list) == multiset(unsorted)
  {
    list := unsorted;
    var a := 0;
    while a < |list|
      invariant 0 <= a <= |list| && AllUsed(mounts, list) && SortedTo(mounts, list, a)
      invariant multiset(list) == multiset(unsorted) && |list| == |unsorted|
    {
      var b := a + 1;
      while b < |list|
        invariant a < b <= |list| && AllUsed(mounts, list) && SortedTo(mounts, list, a)
        invariant forall k :: a < k < b ==> mounts[list[a]].order <= mounts[list[k]].order
        invariant multiset(list) == multiset(unsorted) && |list| == |unsorted| && a < |list|
      {
        if mounts[list[b]].order < mounts[list[a]].order {
          Swapped(mounts, list, a, b);
          list := list[a := list[b]][b := list[a]];
        }
        b := b + 1;
      }
      a := a + 1;
    }
  }

  lemma Swapped(mounts: Mounts, list: seq<nat>, a: nat, b: nat)
    requires a < b < |list| && AllUsed(mounts, list) && SortedTo(mounts, list, a)
    ensures
      var s := list[a := list[b]][b := list[a]];
      multiset(s) == multiset(list) && AllUsed(mounts, s) && SortedTo(mounts, s, a)
  {
  }

  /** What the header of the root drive holds after a mount or an unmount. */
  method Persist(t: Table, ids: seq<Id>) returns (records: seq<Record>, ghost list: seq<nat>)
    requires t.Valid() && forall i :: Used(t.mounts, i) ==> t.mounts[i].drive < |ids|
    ensures Listed(t.mounts, list) && Known(t.mounts, ids, list)
    ensures records == Records(t.mounts, ids, list)
  {
    var some := Collect(t.mounts);
    assert forall k :: 0 <= k < |some| ==> some[k] in some;
    var sorted := SortByAge(t.mounts, some);
    SortedIsListed(t.mounts, t.root, t.order, some, sorted);
    list := sorted;
    records := Records(t.mounts, ids, sorted);
  }

  lemma SortedIsListed(mounts: Mounts, root: int, order: nat, some: seq<nat>, list: seq<nat>)
    requires TableOk(mounts, root, order) && AllUsed(mounts, list) && SortedTo(mounts, list, |list|)
    requires forall i {:trigger i in some} :: i in some <==> Remembered(mounts, i)
    requires (forall k, l :: 0 <= k < l < |some| ==> some[k] != some[l]) && multiset(list) == multiset(some)
    ensures Listed(mounts, list)
  {
    forall k | 0 <= k < |list|
      ensures list[k] in some
    {
      assert list[k] in multiset(list);
    }
    forall i | Used(mounts, i) && !mounts[i].isRoot
      ensures i in list
    {
      assert MountOk(mounts, root, order, i);
      assert i in some && i in multiset(list);
    }
    DistinctStays(some, list);
    forall k, l | 0 <= k < l < |list|
      ensures mounts[list[k]].order < mounts[list[l]].order
    {
      assert list[k] != list[l] && PairOk(mounts, list[k], list[l]);
    }
  }

  lemma {:induction false} CountOnce(s: seq<nat>, x: nat)
    requires forall k, l :: 0 <= k < l < |s| ==> s[k] != s[l]
    ensures multiset(s)[x] <= 1
  {
    if s != [] {
      var r := s[..|s| - 1];
      assert s == r + [s[|s| - 1]];
      CountOnce(r, x);
      if x == s[|s| - 1] {
        assert x !in r;
      }
    }
  }

  lemma DistinctStays(some: seq<nat>, list: seq<nat>)
    requires (forall k, l :: 0 <= k < l < |some| ==> some[k] != some[l]) && multiset(list) == multiset(some)
    ensures forall k, l :: 0 <= k < l < |list| ==> list[k] != list[l]
  {
    forall k, l | 0 <= k < l < |list|
      ensures list[k] != list[l]
    {
      if list[k] == list[l] {
        CountTwice(list, k, l);
        CountOnce(some, list[k]);
      }
    }
  }

  lemma CountTwice(s: seq<nat>, k: nat, l: nat)
    requires k < l < |s| && s[k] == s[l]
    ensures multiset(s)[s[k]] >= 2
  {
    assert s == s[..l] + [s[l]] + s[l + 1..];
    assert s[k] in s[..l];
  }

  // ---- vfs_init ----

  method FindDrive(ids: seq<Id>, id: Id) returns (i: int)
    ensures i == -1 ==> id !in ids
    ensures i != -1 ==> 0 <= i < |ids| && ids[i] == id && forall j :: 0 <= j < i ==> ids[j] != id
  {
    i := 0;
    while i < |ids|
      invariant 0 <= i <= |ids| && forall j :: 0 <= j < i ==> ids[j] != id
    {
      if ids[i] == id {
        return;
      }
      i := i + 1;
    }
    return -1;
  }

  /** The table after the root and the first `n` records were mounted. */
  ghost predicate Restored(mounts: Mounts, drive: nat, records: seq<Record>, ids: seq<Id>, targets: seq<nat>, n: nat) {
    && n <= |records| <= HEADER_MOUNTS && |targets| == |records| && |mounts| == MAX_MOUNTS
    && mounts[0] == Mount(drive, true, "/", 1, 0)
    && (forall k :: 0 <= k < n ==> mounts[k + 1] == Mount(targets[k], false, records[k].path, k + 2, 0))
    && (forall k :: n < k < MAX_MOUNTS ==> mounts[k] == Free)
  }

  /** The records come from mounts that stood beside each other. */
  ghost predicate Bootable(records: seq<Record>, ids: seq<Id>, targets: seq<nat>) {
    && |targets| == |records| <= HEADER_MOUNTS && Distinct(ids)
    && (forall k :: 0 <= k < |records| ==> targets[k] < |ids| && ids[targets[k]] == records[k].id)
    && (forall k :: 0 <= k < |records| ==> TargetOk(records[k].path) && IsNormal(records[k].path))
    && (forall k, l :: 0 <= k < l < |records| ==> !SameName(records[k].path, records[l].path))
  }

  /** Mounts record `n` of the header. */
  method Remount(t: Table, n: nat, drive: nat, records: seq<Record>, ids: seq<Id>, header: bool,
                 ghost targets: seq<nat>)
    requires t.Valid() && Bootable(records, ids, targets) && n < |records|
    requires Restored(t.mounts, drive, records, ids, targets, n) && t.root == 0 && t.order == n + 1
    modifies t
    ensures t.Valid() && t.files == old(t.files) && t.root == 0 && t.order == n + 2
    ensures Restored(t.mounts, drive, records, ids, targets, n + 1)
  {
    var target := FindDrive(ids, records[n].id);
    assert target == targets[n];
    var path := records[n].path;
    if path[0] == '/' {
      forall j | Used(t.mounts, j)
        ensures !SameName(t.mounts[j].path, path)
      {
        if j > 0 {
          assert t.mounts[j - 1 + 1] == Mount(targets[j - 1], false, records[j - 1].path, j + 1, 0);
        }
      }
      ghost var before := t.mounts;
      assert before[n + 1] == Free;
      forall k | 1 <= k <= n
        ensures before[k].Mount?
      {
        assert before[k - 1 + 1] == Mount(targets[k - 1], false, records[k - 1].path, k + 1, 0);
      }
      var r, slot := t.DoMount(target, path, true, Answers(true, true, true, header));
      assert r == Ok && slot == n + 1;
    }
  }

  /** The first drive whose header says that it is the root, or -1. */
  method FindRoot(headers: seq<seq<Record>>, isRoot: seq<bool>) returns (d: int)
    requires |headers| == |isRoot|
    ensures d == -1 ==> forall j :: 0 <= j < |isRoot| ==> !isRoot[j]
    ensures d != -1 ==> 0 <= d < |isRoot| && isRoot[d] && forall j :: 0 <= j < d ==> !isRoot[j]
  {
    d := 0;
    while d < |isRoot|
      invariant 0 <= d <= |isRoot| && forall j :: 0 <= j < d ==> !isRoot[j]
    {
      if isRoot[d] {
        return;
      }
      d := d + 1;
    }
    return -1;
  }

  /**
   Boots from the drive with the root header and mounts what the header lists. The header is not written, so it does not
   matter whether it could be.
   */
  method Boot(headers: seq<seq<Record>>, isRoot: seq<bool>, ids: seq<Id>, header: bool, ghost drive: nat,
              ghost targets: seq<nat>)
    returns (t: Table)
    requires |headers| == |isRoot| && drive < |isRoot|
    requires (forall j :: 0 <= j < |isRoot| ==> (isRoot[j] <==> j == drive))
    requires Bootable(headers[drive], ids, targets)
    ensures fresh(t) && t.Valid() && t.root == 0
    ensures Restored(t.mounts, drive, headers[drive], ids, targets, |targets|)
  {
    t := new Table();
    assert isRoot[drive] && t.mounts[0] == Free;
    var d := FindRoot(headers, isRoot);
    RenderIsNormal([]);
    var r, slot := t.DoMount(d, "/", true, Answers(true, true, true, header));
    assert r == Ok && slot == 0;
    var n := 0;
    while n < |headers[d]|
      invariant 0 <= n <= |headers[d]| && t.Valid() && t.root == 0 && t.order == n + 1 && fresh(t)
      invariant Restored(t.mounts, drive, headers[d], ids, targets, n)
    {
      Remount(t, n, d, headers[d], ids, header, targets);
      n := n + 1;
    }
  }

  // ---- the boot restores what was mounted ----

  /** The slot that a mount has after the boot. */
  ghost function NewSlot(list: seq<nat>, root: int, i: int): int {
    if i == root then 0 else if i in list then IndexIn(list, i) + 1 else -1
  }

  ghost function IndexIn(list: seq<nat>, i: int): (k: nat)
    requires i in list
    ensures k < |list| && list[k] == i
  {
    if list[0] == i then 0 else 1 + IndexIn(list[1..], i)
  }

  /** The drives of the listed mounts. */
  ghost function Targets(mounts: Mounts, ids: seq<Id>, list: seq<nat>): (r: seq<nat>)
    requires Known(mounts, ids, list)
    ensures |r| == |list| && forall k :: 0 <= k < |list| ==> r[k] == mounts[list[k]].drive
  {
    seq(|list|, k requires 0 <= k < |list| => mounts[list[k]].drive)
  }

  /** At most six mounts stand beside the root. */
  lemma AtMostSix(mounts: Mounts, root: int, order: nat, list: seq<nat>)
    requires TableOk(mounts, root, order) && root >= 0 && Listed(mounts, list)
    ensures |list| <= HEADER_MOUNTS
  {
    assert MountOk(mounts, root, order, root);
    var all := {0, 1, 2, 3, 4, 5, 6};
    var some := Members(list);
    forall x | x in some
      ensures x in all - {root}
    {
      var k: nat :| k < |list| && list[k] == x;
      assert Used(mounts, list[k]);
    }
    assert |all| == 7 && root in all;
    SubsetCount(some, all - {root});
    DistinctCount(list);
  }

  lemma {:induction false} SubsetCount(a: set<nat>, b: set<nat>)
    requires a <= b
    ensures |a| <= |b|
  {
    if a != {} {
      var x :| x in a;
      SubsetCount(a - {x}, b - {x});
    }
  }

  /** The header written for a table can be booted from. */
  lemma HeaderIsBootable(mounts: Mounts, root: int, order: nat, ids: seq<Id>, list: seq<nat>)
    requires TableOk(mounts, root, order) && root >= 0 && Listed(mounts, list) && Known(mounts, ids, list)
    requires Distinct(ids)
    ensures Bootable(Records(mounts, ids, list), ids, Targets(mounts, ids, list))
  {
    AtMostSix(mounts, root, order, list);
    var records := Records(mounts, ids, list);
    forall k | 0 <= k < |list|
      ensures TargetOk(records[k].path) && IsNormal(records[k].path)
    {
      assert Used(mounts, list[k]) && MountOk(mounts, root, order, list[k]);
    }
    forall k, l | 0 <= k < l < |list|
      ensures !SameName(records[k].path, records[l].path)
    {
      assert Used(mounts, list[k]) && Used(mounts, list[l]) && list[k] != list[l];
      assert PairOk(mounts, list[k], list[l]);
    }
  }

  /** After the boot a mount stands in its new slot, with the same drive and mount point. */
  lemma SameMount(mounts: Mounts, root: int, order: nat, ids: seq<Id>, list: seq<nat>, mounts': Mounts, i: nat)
    requires TableOk(mounts, root, order) && Used(mounts, root) && Listed(mounts, list) && Known(mounts, ids, list)
    requires Restored(mounts', mounts[root].drive, Records(mounts, ids, list), ids, Targets(mounts, ids, list), |list|)
    requires Used(mounts, i)
    ensures
      var k := NewSlot(list, root, i);
      Used(mounts', k) && mounts'[k].(order := 0, opens := 0) == mounts[i].(order := 0, opens := 0)
  {
    assert MountOk(mounts, root, order, i);
    if i != root {
      var k := IndexIn(list, i);
      assert mounts'[k + 1] == Mount(Targets(mounts, ids, list)[k], false, Records(mounts, ids, list)[k].path, k + 2,
                                     0);
    }
  }

  /** Every path is served after the boot by the drive that served it before, under the same relative path. */
  lemma BootServesTheSame(mounts: Mounts, root: int, order: nat, ids: seq<Id>, list: seq<nat>, mounts': Mounts,
                          abs: string, i: nat)
    requires TableOk(mounts, root, order) && Used(mounts, root) && Listed(mounts, list) && Known(mounts, ids, list)
    requires Restored(mounts', mounts[root].drive, Records(mounts, ids, list), ids, Targets(mounts, ids, list), |list|)
    requires Best(mounts, abs, i) && abs != ""
    ensures
      var k := NewSlot(list, root, i);
      && Best(mounts', abs, k) && mounts'[k].drive == mounts[i].drive
      && Length(mounts'[k]) == Length(mounts[i]) <= |abs| && Relative(mounts'[k], abs) == Relative(mounts[i], abs)
  {
    var k := NewSlot(list, root, i);
    SameMount(mounts, root, order, ids, list, mounts', i);
    assert MountOk(mounts, root, order, i);
    forall j | Serves(mounts', abs, j) && j != k
      ensures Length(mounts'[j]) < Length(mounts'[k])
    {
      var was := if j == 0 then root else list[j - 1];
      assert j > 0 ==> mounts'[j - 1 + 1] == Mount(Targets(mounts, ids, list)[j - 1], false,
                                                   Records(mounts, ids, list)[j - 1].path, j + 1, 0);
      assert j > 0 ==> Used(mounts, list[j - 1]);
      assert MountOk(mounts, root, order, root);
      assert Serves(mounts, abs, was) && was != i;
    }
  }

  /** Mounts keep their order of age across the boot. */
  lemma BootKeepsOrder(mounts: Mounts, root: int, order: nat, ids: seq<Id>, list: seq<nat>, mounts': Mounts, i: nat,
                       j: nat)
    requires TableOk(mounts, root, order) && Used(mounts, root) && Listed(mounts, list) && Known(mounts, ids, list)
    requires Restored(mounts', mounts[root].drive, Records(mounts, ids, list), ids, Targets(mounts, ids, list), |list|)
    requires Used(mounts, i) && Used(mounts, j) && mounts[i].order < mounts[j].order
    ensures
      var k, l := NewSlot(list, root, i), NewSlot(list, root, j);
      Used(mounts', k) && Used(mounts', l) && mounts'[k].order < mounts'[l].order
  {
    SameMount(mounts, root, order, ids, list, mounts', i);
    SameMount(mounts, root, order, ids, list, mounts', j);
    assert MountOk(mounts, root, order, i) && MountOk(mounts, root, order, j);
    assert i != j ==> PairOk(mounts, j, i);
    var k, l := NewSlot(list, root, i), NewSlot(list, root, j);
    assert j != root ==> mounts'[l - 1 + 1].order == l - 1 + 2;
    assert i != root ==> mounts'[k - 1 + 1].order == k - 1 + 2;
  }

  /**
   The header is written and the machine boots from it: every path is then served by the drive that served it before,
   under the same relative path.
   */
  method Reboot(t: Table, ids: seq<Id>, others: seq<seq<Record>>, header: bool)
    returns (t': Table, ghost list: seq<nat>)
    requires t.Valid() && t.root >= 0 && Distinct(ids) && |others| == |ids|
    requires forall i :: Used(t.mounts, i) ==> t.mounts[i].drive < |ids|
    ensures fresh(t') && t'.Valid() && t'.root == 0
    ensures forall abs, i {:trigger Best(t.mounts, abs, i)} :: abs != "" && Best(t.mounts, abs, i) ==>
      SameService(t.mounts, t'.mounts, abs, i, NewSlot(list, t.root, i))
  {
    var records;
    records, list := Persist(t, ids);
    HeaderIsBootable(t.mounts, t.root, t.order, ids, list);
    var drive := t.mounts[t.root].drive;
    var headers := others[drive := records];
    var isRoot := seq(|ids|, j => j == drive);
    ghost var mounts, root, order := t.mounts, t.root, t.order;
    ghost var targets := Targets(mounts, ids, list);
    t' := Boot(headers, isRoot, ids, header, drive, targets);
    forall abs, i | abs != "" && Best(mounts, abs, i)
      ensures SameService(mounts, t'.mounts, abs, i, NewSlot(list, root, i))
    {
      BootServesTheSame(mounts, root, order, ids, list, t'.mounts, abs, i);
    }
  }

  /** Mount `k` of the one table serves the path as mount `i` of the other does: same drive, same path on it. */
  ghost predicate SameService(mounts: Mounts, mounts': Mounts, abs: string, i: int, k: int) {
    && Best(mounts, abs, i) && Best(mounts', abs, k) && mounts'[k].drive == mounts[i].drive
    && Length(mounts'[k]) == Length(mounts[i]) <= |abs| && Relative(mounts'[k], abs) == Relative(mounts[i], abs)
  }
}
