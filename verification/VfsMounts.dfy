/** The mount table and the file table of the VFS (vfs.c) as values. */
module VfsMounts {
  import opened PathName
  import opened VfsPaths

  const MAX_MOUNTS := 7
  const MAX_FILES := 32
  const MOUNT_PATH_MAX := 48

  datatype Mount = Free | Mount(drive: nat, isRoot: bool, path: string, order: nat, opens: int)

  datatype File = Closed | Open(mount: nat)

  type Mounts = seq<Mount>

  predicate Used(mounts: Mounts, i: int) {
    0 <= i < |mounts| && mounts[i].Mount?
  }

  /** Where a mount other than the root may be. */
  ghost predicate TargetOk(t: string) {
    1 < |t| < MOUNT_PATH_MAX && t[0] == '/'
  }

  /** What holds of one mount. */
  ghost predicate MountOk(mounts: Mounts, root: int, order: nat, i: nat)
    requires Used(mounts, i)
  {
    && (mounts[i].isRoot <==> root == i)
    && (if mounts[i].isRoot then mounts[i].path == "/" else TargetOk(mounts[i].path))
    && IsNormal(mounts[i].path) && mounts[i].order <= order
  }

  /** What holds of two mounts; the root is the older one. */
  ghost predicate PairOk(mounts: Mounts, i: nat, j: nat)
    requires Used(mounts, i) && Used(mounts, j)
  {
    && !SameName(mounts[i].path, mounts[j].path)
    && mounts[i].order != mounts[j].order
    && (mounts[i].isRoot ==> mounts[i].order < mounts[j].order)
  }

  /** At most one root, no mount without one, mount points that differ ignoring case, and an order of mounting. */
  ghost predicate TableOk(mounts: Mounts, root: int, order: nat) {
    && |mounts| == MAX_MOUNTS && -1 <= root < MAX_MOUNTS
    && (root >= 0 ==> Used(mounts, root))
    && (forall i :: Used(mounts, i) ==> root >= 0)
    && (forall i {:trigger MountOk(mounts, root, order, i)} :: Used(mounts, i) ==> MountOk(mounts, root, order, i))
    && (forall i, j {:trigger PairOk(mounts, i, j)} :: Used(mounts, i) && Used(mounts, j) && i != j ==>
          PairOk(mounts, i, j))
  }

  /** How many files are open on mount `i`. */
  function Count(files: seq<File>, i: nat): nat {
    if files == [] then 0
    else Count(files[..|files| - 1], i) + if files[|files| - 1] == Open(i) then 1 else 0
  }

  lemma {:induction false} CountUpdate(files: seq<File>, k: nat, f: File, i: nat)
    requires k < |files|
    ensures Count(files[k := f], i) + (if files[k] == Open(i) then 1 else 0)
      == Count(files, i) + if f == Open(i) then 1 else 0
  {
    var n := |files| - 1;
    if k == n {
      assert files[k := f][..n] == files[..n];
    } else {
      assert files[k := f][..n] == files[..n][k := f];
      CountUpdate(files[..n], k, f, i);
    }
  }

  lemma {:induction false} CountZero(files: seq<File>, i: nat)
    requires forall k :: 0 <= k < |files| ==> files[k] != Open(i)
    ensures Count(files, i) == 0
  {
    if files != [] {
      CountZero(files[..|files| - 1], i);
    }
  }

  /** Every open file is on a live mount, whose count of open files is exact. */
  ghost predicate FilesOk(mounts: Mounts, files: seq<File>) {
    && |files| == MAX_FILES
    && (forall k :: 0 <= k < |files| && files[k].Open? ==> Used(mounts, files[k].mount))
    && (forall i {:trigger Count(files, i)} :: Used(mounts, i) ==> mounts[i].opens == Count(files, i))
  }

  // ---- which mount serves a path ----

  function Length(m: Mount): nat
    requires m.Mount?
  {
    if m.isRoot then 1 else |m.path|
  }

  ghost predicate Serves(mounts: Mounts, abs: string, i: int) {
    Used(mounts, i) && Within(abs, mounts[i].path)
  }

  /** Mount `i` serves the path, and every other that does has a shorter mount point. */
  ghost predicate Best(mounts: Mounts, abs: string, i: int) {
    && Serves(mounts, abs, i)
    && forall j {:trigger Serves(mounts, abs, j)} :: Serves(mounts, abs, j) && j != i ==>
        Length(mounts[j]) < Length(mounts[i])
  }

  /** Two mount points of the same length that both serve a path are the same but for case. */
  lemma ServesSameLength(mounts: Mounts, root: int, order: nat, abs: string, i: nat, j: nat)
    requires TableOk(mounts, root, order) && Serves(mounts, abs, i) && Serves(mounts, abs, j) && i != j
    ensures Length(mounts[i]) != Length(mounts[j])
  {
    assert MountOk(mounts, root, order, i) && MountOk(mounts, root, order, j);
    SameLength(abs, mounts[i].path, mounts[j].path);
    assert PairOk(mounts, i, j);
  }

  lemma SameLength(abs: string, p: string, q: string)
    requires Within(abs, p) && Within(abs, q)
    ensures |p| == |q| && |p| > 1 ==> SameName(p, q)
  {
    if |p| == |q| && |p| > 1 {
      WithinIsLower(abs, p);
      WithinIsLower(abs, q);
      assert LowerAll(p) == LowerAll(abs)[..|p|] == LowerAll(q);
      SameIsLower(p, q);
    }
  }

  /** What a path is on the mount that serves it. */
  function Relative(m: Mount, abs: string): string
    requires m.Mount? && (m.isRoot || |m.path| <= |abs|)
  {
    var r := if m.isRoot then abs else abs[Length(m)..];
    if r == "" then "/" else r
  }

  // ---- the same by names ----

  function Names(m: Mount): seq<string>
    requires m.Mount?
  {
    Components(m.path)
  }

  /** The names of mount point `i` are the first of the path's names, and no other mount point has as many of them. */
  ghost predicate LongestPrefix(mounts: Mounts, path: seq<string>, i: int) {
    && Used(mounts, i) && Below(path, Names(mounts[i]))
    && forall j {:trigger Used(mounts, j)} :: Used(mounts, j) && j != i && Below(path, Names(mounts[j])) ==>
        |Names(mounts[j])| < |Names(mounts[i])|
  }

  /** A mount serves a normalized path exactly if it is mounted above it. */
  lemma ServesIsAbove(mounts: Mounts, root: int, order: nat, abs: string, i: nat)
    requires TableOk(mounts, root, order) && IsNormal(abs) && Used(mounts, i)
    ensures Serves(mounts, abs, i) <==> Below(Components(abs), Names(mounts[i]))
  {
    assert MountOk(mounts, root, order, i);
    WithinIsBelow(Components(abs), Names(mounts[i]));
  }

  /** Of two mounts above a path, the longer mount point has more names. */
  lemma LongerHasMore(mounts: Mounts, root: int, order: nat, path: seq<string>, i: nat, j: nat)
    requires TableOk(mounts, root, order) && Used(mounts, i) && Used(mounts, j) && i != j
    requires Below(path, Names(mounts[i])) && Below(path, Names(mounts[j]))
    ensures Length(mounts[j]) < Length(mounts[i]) <==> |Names(mounts[j])| < |Names(mounts[i])|
  {
    assert MountOk(mounts, root, order, i) && MountOk(mounts, root, order, j) && PairOk(mounts, i, j);
    var a, b := Names(mounts[i]), Names(mounts[j]);
    if |a| < |b| {
      MoreNamesLonger(path, a, b);
    } else if |b| < |a| {
      MoreNamesLonger(path, b, a);
    } else {
      AsManyNamesSame(path, a, b);
    }
  }

  /** The mount that serves a normalized path is the one whose names are the longest prefix of its names. */
  lemma BestIsLongestPrefix(mounts: Mounts, root: int, order: nat, abs: string, i: nat)
    requires TableOk(mounts, root, order) && IsNormal(abs) && Used(mounts, i)
    ensures Best(mounts, abs, i) <==> LongestPrefix(mounts, Components(abs), i)
  {
    var path := Components(abs);
    ServesIsAbove(mounts, root, order, abs, i);
    if Serves(mounts, abs, i) {
      forall j | Used(mounts, j) && j != i
        ensures Serves(mounts, abs, j) <==> Below(path, Names(mounts[j]))
        ensures Serves(mounts, abs, j) ==>
          (Length(mounts[j]) < Length(mounts[i]) <==> |Names(mounts[j])| < |Names(mounts[i])|)
      {
        ServesIsAbove(mounts, root, order, abs, j);
        if Serves(mounts, abs, j) {
          LongerHasMore(mounts, root, order, path, i, j);
        }
      }
    }
  }

  /** The path on the mount has the names behind those of the mount point. */
  lemma RelativeNames(mounts: Mounts, root: int, order: nat, abs: string, i: nat)
    requires TableOk(mounts, root, order) && IsNormal(abs) && Serves(mounts, abs, i)
    ensures mounts[i].isRoot || |mounts[i].path| <= |abs|
    ensures |Names(mounts[i])| <= |Components(abs)|
    ensures Relative(mounts[i], abs) == Render(Components(abs)[|Names(mounts[i])|..])
    ensures Components(Relative(mounts[i], abs)) == Components(abs)[|Names(mounts[i])|..]
  {
    assert MountOk(mounts, root, order, i);
    var path, base := Components(abs), Names(mounts[i]);
    ServesIsAbove(mounts, root, order, abs, i);
    ComponentsOfRender([]);
    if base != [] {
      CutOff(path, base);
      assert Components("/") == [];
    }
  }

  // ---- changes of the table ----

  lemma Mounted(mounts: Mounts, root: int, order: nat, i: nat, m: Mount)
    requires TableOk(mounts, root, order) && i < MAX_MOUNTS && mounts[i] == Free
    requires m.Mount? && m.order == order + 1
    requires if m.isRoot then root < 0 && m.path == "/" else root >= 0 && TargetOk(m.path)
    requires IsNormal(m.path)
    requires forall j :: Used(mounts, j) ==> !SameName(mounts[j].path, m.path)
    ensures TableOk(mounts[i := m], if m.isRoot then i else root, order + 1)
  {
    var mounts', root' := mounts[i := m], if m.isRoot then i else root;
    forall j | Used(mounts', j)
      ensures root' >= 0 && MountOk(mounts', root', order + 1, j)
    {
      assert j != i ==> MountOk(mounts, root, order, j);
    }
    forall j, k | Used(mounts', j) && Used(mounts', k) && j != k
      ensures PairOk(mounts', j, k)
    {
      if j != i && k != i {
        assert PairOk(mounts, j, k);
      } else if j == i {
        assert Used(mounts, k) && MountOk(mounts, root, order, k);
      } else {
        assert MountOk(mounts, root, order, j);
      }
    }
  }

  lemma Unmounted(mounts: Mounts, root: int, order: nat, i: nat)
    requires TableOk(mounts, root, order) && Used(mounts, i)
    requires mounts[i].isRoot ==> forall j :: Used(mounts, j) ==> j == i
    ensures TableOk(mounts[i := Free], if mounts[i].isRoot then -1 else root, order)
  {
    assert MountOk(mounts, root, order, i);
    var mounts', root' := mounts[i := Free], if mounts[i].isRoot then -1 else root;
    forall j | Used(mounts', j)
      ensures root' >= 0 && MountOk(mounts', root', order, j)
    {
      assert Used(mounts, j) && MountOk(mounts, root, order, j);
    }
    forall j, k | Used(mounts', j) && Used(mounts', k) && j != k
      ensures PairOk(mounts', j, k)
    {
      assert Used(mounts, j) && Used(mounts, k) && PairOk(mounts, j, k);
    }
  }

  lemma Recounted(mounts: Mounts, root: int, order: nat, i: nat, opens: int)
    requires TableOk(mounts, root, order) && Used(mounts, i)
    ensures TableOk(mounts[i := mounts[i].(opens := opens)], root, order)
  {
    var mounts' := mounts[i := mounts[i].(opens := opens)];
    forall j | Used(mounts', j)
      ensures root >= 0 && MountOk(mounts', root, order, j)
    {
      assert Used(mounts, j) && MountOk(mounts, root, order, j);
    }
    forall j, k | Used(mounts', j) && Used(mounts', k) && j != k
      ensures PairOk(mounts', j, k)
    {
      assert Used(mounts, j) && Used(mounts, k) && PairOk(mounts, j, k);
    }
  }
}
