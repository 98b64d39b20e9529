/** Mounting, unmounting, opening and closing in the VFS (vfs.c). */
module Vfs {
  import opened PathName
  import opened VfsPaths
  import opened VfsMounts

  datatype Status = Ok | Busy | NoRoot | BadTarget | NoFs | NotMounted | BadPath | Failed

  /** What the drives and their file systems answer: file system found, directories made, mounted, header written. */
  datatype Answers = Answers(hasFs: bool, dirs: bool, backend: bool, header: bool)

  /** A drive can be mounted at `t`, but for the header of a new root. */
  ghost predicate Mountable(mounts: Mounts, root: int, t: string, a: Answers) {
    && (if t == "/" then root < 0
        else root >= 0 && TargetOk(t) && forall j :: Used(mounts, j) ==> !SameName(mounts[j].path, t))
    && a.hasFs && a.backend && (t != "/" ==> a.dirs)
    && exists j :: 0 <= j < |mounts| && mounts[j] == Free
  }

  class Table {
    var mounts: Mounts
    var files: seq<File>
    var root: int
    var order: nat

    ghost predicate Valid()
      reads this
    {
      TableOk(mounts, root, order) && FilesOk(mounts, files)
    }

    constructor ()
      ensures Valid() && root == -1 && order == 0 && (forall i :: 0 <= i < MAX_MOUNTS ==> mounts[i] == Free)
      ensures forall k :: 0 <= k < MAX_FILES ==> files[k] == Closed
    {
      mounts, files := seq(MAX_MOUNTS, _ => Free), seq(MAX_FILES, _ => Closed);
      root, order := -1, 0;
    }

    /** The mount at exactly this point, ignoring case, or -1. */
    method FindExact(abs: string) returns (i: int)
      requires |mounts| == MAX_MOUNTS
      ensures i == -1 ==> forall j :: Used(mounts, j) ==> !SameName(mounts[j].path, abs)
      ensures i != -1 ==> Used(mounts, i) && SameName(mounts[i].path, abs)
    {
      i := 0;
      while i < MAX_MOUNTS
        invariant 0 <= i <= MAX_MOUNTS && forall j :: Used(mounts, j) && j < i ==> !SameName(mounts[j].path, abs)
      {
        if mounts[i].Mount? {
          var same := Compare(mounts[i].path, abs);
          if same {
            return;
          }
        }
        i := i + 1;
      }
      return -1;
    }

    /**
     The mount with the longest mount point that the path is at or below, or -1, and the path on it. For a normalized
     path its names are the longest prefix of the path's, and the path on it has the others.
     */
    method FindMount(abs: string) returns (best: int, rel: string)
      requires Valid()
      ensures best == -1 ==> forall j :: !Serves(mounts, abs, j)
      ensures best != -1 ==> Best(mounts, abs, best)
      ensures root >= 0 ==> best != -1
      ensures best != -1 ==> (mounts[best].isRoot || |mounts[best].path| <= |abs|) && rel == Relative(mounts[best], abs)
      ensures best != -1 && IsNormal(abs) ==>
        && LongestPrefix(mounts, Components(abs), best) && |Names(mounts[best])| <= |Components(abs)|
        && rel == Render(Components(abs)[|Names(mounts[best])|..])
        && Components(rel) == Components(abs)[|Names(mounts[best])|..]
    {
      best := LongestMount(abs);
      rel := "";
      if best != -1 {
        assert MountOk(mounts, root, order, best);
        rel := Relative(mounts[best], abs);
        if IsNormal(abs) {
          BestIsLongestPrefix(mounts, root, order, abs, best);
          RelativeNames(mounts, root, order, abs, best);
        }
      }
    }

    method LongestMount(abs: string) returns (best: int)
      requires Valid()
      ensures best == -1 ==> forall j :: !Serves(mounts, abs, j)
      ensures best != -1 ==> Best(mounts, abs, best)
      ensures root >= 0 ==> best != -1
    {
      best := -1;
      var length := 0;
      var i := 0;
      while i < MAX_MOUNTS
        invariant 0 <= i <= MAX_MOUNTS && -1 <= best < i
        invariant best == -1 ==> length == 0 && forall j :: 0 <= j < i ==> !Serves(mounts, abs, j)
        invariant best != -1 ==>
          && Serves(mounts, abs, best) && length == Length(mounts[best])
          && forall j {:trigger Serves(mounts, abs, j)} :: 0 <= j < i && j != best && Serves(mounts, abs, j) ==>
              Length(mounts[j]) < length
      {
        if mounts[i].Mount? {
          assert MountOk(mounts, root, order, i);
          var n := Length(mounts[i]);
          var within := PathWithin(abs, mounts[i].path);
          if within {
            assert Serves(mounts, abs, i);
            if best != -1 {
              ServesSameLength(mounts, root, order, abs, i, best);
            }
            if n > length {
              best, length := i, n;
            }
          }
        }
        i := i + 1;
      }
      if root >= 0 {
        assert MountOk(mounts, root, order, root);
        assert Serves(mounts, abs, root);
      }
    }

    method FreeSlot() returns (i: int)
      requires |mounts| == MAX_MOUNTS
      ensures i == -1 ==> forall j :: 0 <= j < MAX_MOUNTS ==> mounts[j].Mount?
      ensures i != -1 ==> 0 <= i < MAX_MOUNTS && mounts[i] == Free && forall j :: 0 <= j < i ==> mounts[j].Mount?
    {
      i := 0;
      while i < MAX_MOUNTS
        invariant 0 <= i <= MAX_MOUNTS && forall j :: 0 <= j < i ==> mounts[j].Mount?
      {
        if mounts[i] == Free {
          return;
        }
        i := i + 1;
      }
      return -1;
    }

    /** A new root is refused when there is one, any other mount when there is none or its point is taken. */
    method Check(t: string) returns (r: Status)
      requires Valid()
      ensures r != BadPath
      ensures r == Ok <==>
        if t == "/" then root < 0
        else root >= 0 && TargetOk(t) && forall j :: Used(mounts, j) ==> !SameName(mounts[j].path, t)
    {
      if t == "/" {
        return if root >= 0 then Busy else Ok;
      }
      if root < 0 {
        return NoRoot;
      }
      if |t| <= 1 || |t| >= MOUNT_PATH_MAX || t[0] != '/' {
        return BadTarget;
      }
      var i := FindExact(t);
      return if i != -1 then Busy else Ok;
    }

    /** Mounts a drive. During boot the header is not written. */
    method DoMount(drive: nat, t: string, boot: bool, a: Answers) returns (r: Status, slot: int)
      requires Valid() && IsNormal(t)
      modifies this
      ensures Valid() && files == old(files)
      ensures r != Ok ==> mounts == old(mounts) && root == old(root)
      ensures r == Ok ==>
        && 0 <= slot < MAX_MOUNTS && old(mounts)[slot] == Free && (forall j :: 0 <= j < slot ==> old(mounts)[j].Mount?)
        && order == old(order) + 1 && mounts == old(mounts)[slot := Mount(drive, t == "/", t, order, 0)]
        && root == if t == "/" then slot else old(root)
      ensures r != BadPath
      ensures r == Ok <==> Mountable(old(mounts), old(root), t, a) && (t == "/" && !boot ==> a.header)
      ensures order == old(order) + if Mountable(old(mounts), old(root), t, a) then 1 else 0
    {
      slot := -1;
      r := Check(t);
      if r != Ok {
        return;
      }
      if !a.hasFs {
        r := NoFs;
        return;
      }
      slot := FreeSlot();
      if slot == -1 {
        r := Busy;
      } else if (t != "/" && !a.dirs) || !a.backend {
        r := Failed;
      } else if t == "/" && !boot && !a.header {
        Aged(mounts, root, order);
        order := order + 1;
        r := Failed;
      } else {
        Fill(slot, drive, t);
      }
    }

    /** Mounts a drive at a path that is normalized first. */
    method MountAt(drive: nat, target: string, cwd: string, a: Answers) returns (r: Status, slot: int)
      requires Valid()
      modifies this
      ensures Valid() && files == old(files)
      ensures r == BadPath <==> Normal(target, cwd).None?
      ensures r != Ok ==> mounts == old(mounts) && root == old(root)
      ensures r == Ok ==>
        && 0 <= slot < MAX_MOUNTS && old(mounts)[slot] == Free && Used(mounts, slot) && mounts[slot].drive == drive
        && Names(mounts[slot]) == Normal(target, cwd).value && mounts == old(mounts)[slot := mounts[slot]]
      ensures r == Ok <==> match Normal(target, cwd) {
          case None => false
          case Some(names) => Mountable(old(mounts), old(root), Render(names), a) && (names == [] ==> a.header)
        }
    {
      slot := -1;
      NormalizedIsNormal(target, cwd);
      var ok, t := Normalize(target, cwd);
      if !ok {
        r := BadPath;
        return;
      }
      r, slot := DoMount(drive, t, false, a);
      NormalIsFixed(target, cwd, cwd);
    }

    /** Takes slot `i` for a mount. */
    method Fill(i: nat, drive: nat, t: string)
      requires Valid() && i < MAX_MOUNTS && mounts[i] == Free && IsNormal(t)
      requires if t == "/" then root < 0 else root >= 0 && TargetOk(t)
      requires forall j :: Used(mounts, j) ==> !SameName(mounts[j].path, t)
      modifies this
      ensures Valid() && files == old(files) && order == old(order) + 1
      ensures mounts == old(mounts)[i := Mount(drive, t == "/", t, order, 0)]
      ensures root == if t == "/" then i else old(root)
    {
      var m := Mount(drive, t == "/", t, order + 1, 0);
      Mounted(mounts, root, order, i, m);
      NoneOpen(mounts, files, i);
      mounts, order := mounts[i := m], order + 1;
      if t == "/" {
        root := i;
      }
    }

    /** The newest mount of a drive, or -1. */
    method FindLastByDrive(drive: nat) returns (best: int)
      requires |mounts| == MAX_MOUNTS
      ensures best == -1 ==> forall j :: Used(mounts, j) ==> mounts[j].drive != drive
      ensures best != -1 ==>
        && Used(mounts, best) && mounts[best].drive == drive
        && forall j :: Used(mounts, j) && mounts[j].drive == drive ==> mounts[j].order <= mounts[best].order
    {
      best := -1;
      var i := 0;
      while i < MAX_MOUNTS
        invariant 0 <= i <= MAX_MOUNTS && -1 <= best < i
        invariant best == -1 ==> forall j :: Used(mounts, j) && j < i ==> mounts[j].drive != drive
        invariant best != -1 ==>
          && Used(mounts, best) && mounts[best].drive == drive
          && forall j :: Used(mounts, j) && j < i && mounts[j].drive == drive ==> mounts[j].order <= mounts[best].order
      {
        if mounts[i].Mount? && mounts[i].drive == drive && (best == -1 || mounts[i].order > mounts[best].order) {
          best := i;
        }
        i := i + 1;
      }
    }

    /** Another mount depends on mount `i`, or a file is open on it. */
    ghost predicate InUse(i: nat)
      requires Used(mounts, i)
      reads this
    {
      || (exists j :: Blocks(mounts, i, j))
      || (exists k :: 0 <= k < |files| && files[k] == Open(i))
    }

    method IsBusy(i: nat) returns (busy: bool)
      requires Valid() && Used(mounts, i)
      ensures busy <==> InUse(i)
    {
      var j := 0;
      while j < MAX_MOUNTS
        invariant 0 <= j <= MAX_MOUNTS && forall k :: 0 <= k < j ==> !Blocks(mounts, i, k)
      {
        if j != i && mounts[j].Mount? {
          if mounts[i].isRoot {
            assert Blocks(mounts, i, j);
            return true;
          }
          if !mounts[j].isRoot {
            var within := PathWithin(mounts[j].path, mounts[i].path);
            if within {
              assert Blocks(mounts, i, j);
              return true;
            }
          }
        }
        j := j + 1;
      }
      j := 0;
      while j < |files|
        invariant 0 <= j <= |files| && forall k :: 0 <= k < j ==> files[k] != Open(i)
      {
        if files[j] == Open(i) {
          return true;
        }
        j := j + 1;
      }
      return false;
    }

    /** Unmounts; the root goes last, and nothing that is in use goes. */
    method DoUmount(i: int) returns (r: Status)
      requires Valid() && (i != -1 ==> Used(mounts, i))
      modifies this
      ensures Valid() && files == old(files) && order == old(order)
      ensures r == Ok <==> i != -1 && !old(InUse(i))
      ensures r != Ok ==> mounts == old(mounts) && root == old(root)
      ensures r == Ok ==> mounts == old(mounts)[i := Free] && root == if old(mounts)[i].isRoot then -1 else old(root)
    {
      if i == -1 {
        return NotMounted;
      }
      var busy := IsBusy(i);
      if busy {
        return Busy;
      }
      assert mounts[i].isRoot ==> forall j :: Used(mounts, j) && j != i ==> Blocks(mounts, i, j);
      Unmounted(mounts, root, order, i);
      if mounts[i].isRoot {
        root := -1;
      }
      mounts := mounts[i := Free];
      return Ok;
    }

    /** Opens a file on the mount that serves the path, if its file system agrees. */
    method OpenFile(abs: string, backend: bool) returns (fd: int)
      requires Valid()
      modifies this
      ensures Valid() && root == old(root) && order == old(order)
      ensures fd < 0 ==> mounts == old(mounts) && files == old(files)
      ensures fd >= 0 ==>
        && fd < MAX_FILES && old(files)[fd] == Closed && files[fd].Open? && files == old(files)[fd := files[fd]]
        && Best(old(mounts), abs, files[fd].mount)
        && mounts == old(mounts)[files[fd].mount := mounts[files[fd].mount]]
        && mounts[files[fd].mount] == old(mounts)[files[fd].mount].(opens := old(mounts)[files[fd].mount].opens + 1)
      ensures fd >= 0 <==> old(root) >= 0 && backend && exists k :: 0 <= k < MAX_FILES && old(files)[k] == Closed
    {
      var i, _ := FindMount(abs);
      if i == -1 {
        return -1;
      }
      fd := 0;
      while fd < MAX_FILES && files[fd] != Closed
        invariant 0 <= fd <= MAX_FILES && forall k :: 0 <= k < fd ==> files[k] != Closed
      {
        fd := fd + 1;
      }
      if fd == MAX_FILES || !backend {
        return -1;
      }
      Opened(mounts, files, root, order, i, fd);
      files := files[fd := Open(i)];
      mounts := mounts[i := mounts[i].(opens := mounts[i].opens + 1)];
    }

    /** Closes a file; false for a descriptor that is not open. */
    method CloseFile(fd: int) returns (ok: bool)
      requires Valid()
      modifies this
      ensures Valid() && root == old(root) && order == old(order)
      ensures ok <==> 0 <= fd < MAX_FILES && old(files)[fd].Open?
      ensures !ok ==> mounts == old(mounts) && files == old(files)
      ensures ok ==>
        var i := old(files)[fd].mount;
        && files == old(files)[fd := Closed] && Used(old(mounts), i)
        && mounts == old(mounts)[i := old(mounts)[i].(opens := old(mounts)[i].opens - 1)]
    {
      ok := 0 <= fd < MAX_FILES && files[fd].Open?;
      if ok {
        var i := files[fd].mount;
        ClosedFile(mounts, files, root, order, i, fd);
        mounts := mounts[i := mounts[i].(opens := mounts[i].opens - 1)];
        files := files[fd := Closed];
      }
    }
  }

  lemma Aged(mounts: Mounts, root: int, order: nat)
    requires TableOk(mounts, root, order)
    ensures TableOk(mounts, root, order + 1)
  {
    forall i | Used(mounts, i)
      ensures MountOk(mounts, root, order + 1, i)
    {
      assert MountOk(mounts, root, order, i);
    }
  }

  /** No file is open on a free slot. */
  lemma NoneOpen(mounts: Mounts, files: seq<File>, i: nat)
    requires FilesOk(mounts, files) && i < |mounts| && mounts[i] == Free
    ensures Count(files, i) == 0
  {
    forall k | 0 <= k < |files|
      ensures files[k] != Open(i)
    {
      assert files[k].Open? ==> Used(mounts, files[k].mount);
    }
    CountZero(files, i);
  }

  /** What keeps mount `i` from going: any other mount if it is the root, else a mount at or below its point. */
  ghost predicate Blocks(mounts: Mounts, i: int, j: int) {
    && Used(mounts, i) && Used(mounts, j) && j != i
    && (mounts[i].isRoot || (!mounts[j].isRoot && Within(mounts[j].path, mounts[i].path)))
  }

  lemma Opened(mounts: Mounts, files: seq<File>, root: int, order: nat, i: nat, fd: nat)
    requires TableOk(mounts, root, order) && FilesOk(mounts, files) && Used(mounts, i) && fd < MAX_FILES
    requires files[fd] == Closed
    ensures
      var mounts' := mounts[i := mounts[i].(opens := mounts[i].opens + 1)];
      TableOk(mounts', root, order) && FilesOk(mounts', files[fd := Open(i)])
  {
    Recounted(mounts, root, order, i, mounts[i].opens + 1);
    var mounts', files' := mounts[i := mounts[i].(opens := mounts[i].opens + 1)], files[fd := Open(i)];
    forall j | Used(mounts', j)
      ensures mounts'[j].opens == Count(files', j)
    {
      CountUpdate(files, fd, Open(i), j);
      assert mounts[j].opens == Count(files, j);
    }
  }

  lemma ClosedFile(mounts: Mounts, files: seq<File>, root: int, order: nat, i: nat, fd: nat)
    requires TableOk(mounts, root, order) && FilesOk(mounts, files) && Used(mounts, i) && fd < MAX_FILES
    requires files[fd] == Open(i)
    ensures
      var mounts' := mounts[i := mounts[i].(opens := mounts[i].opens - 1)];
      TableOk(mounts', root, order) && FilesOk(mounts', files[fd := Closed])
  {
    Recounted(mounts, root, order, i, mounts[i].opens - 1);
    var mounts', files' := mounts[i := mounts[i].(opens := mounts[i].opens - 1)], files[fd := Closed];
    forall j | Used(mounts', j)
      ensures mounts'[j].opens == Count(files', j)
    {
      CountUpdate(files, fd, Closed, j);
      assert mounts[j].opens == Count(files, j);
    }
  }
}
