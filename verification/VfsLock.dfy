/**
 The recursive VFS lock (vfs.c), with any number of tasks that run one load, store or atomic test-and-set at a time and
 that may be killed at any point.
 */
module VfsLock {

  const NOBODY := -2

  /**
   Where a task stands. Acquire steps test the depth, test the owner, read and write back the depth of a nested call, or
   spin, then store owner and depth; release steps mirror them; dying steps are those of vfs_task_killed.
   */
  datatype Pc =
    | Idle | Inside
    | TestDepth | TestOwner | ReadDepth | Deepen(tmp: int) | Spin | SetOwner | SetDepth
    | Leave | Undeepen(tmp: int) | ClearOwner | Unlock
    | DieTestDepth | DieTestOwner | DieDepth | DieOwner | DieUnlock | Dead

  datatype Task = Task(pc: Pc, nest: nat)

  /** `holder` is the task whose test-and-set succeeded and that has not released the lock since. */
  datatype State = State(lock: bool, owner: int, depth: int, tasks: seq<Task>, holder: int)

  /** What a task does next where it has a choice; it can be killed anywhere. */
  datatype Choice = Enter | Exit | Die

  function Init(n: nat): State {
    State(false, NOBODY, 0, seq(n, _ => Task(Idle, 0)), NOBODY)
  }

  function Move(s: State, t: nat, pc: Pc): State
    requires t < |s.tasks|
  {
    s.(tasks := s.tasks[t := s.tasks[t].(pc := pc)])
  }

  function Nest(s: State, t: nat, pc: Pc, nest: nat): State
    requires t < |s.tasks|
  {
    s.(tasks := s.tasks[t := Task(pc, nest)])
  }

  /** One step of task `t`. */
  function Step(s: State, t: nat, c: Choice): State
    requires t < |s.tasks|
  {
    var n := s.tasks[t].nest;
    var pc := s.tasks[t].pc;
    if c == Die && !Dying(pc) then Move(s, t, DieTestDepth)
    else
      match pc
      case Idle => if c == Enter then Move(s, t, TestDepth) else s
      case Inside => if c == Enter then Move(s, t, TestDepth) else Move(s, t, Leave)
      case TestDepth => Move(s, t, if s.depth > 0 then TestOwner else Spin)
      case TestOwner => Move(s, t, if s.owner == t then ReadDepth else Spin)
      case ReadDepth => Move(s, t, Deepen(s.depth))
      case Deepen(tmp) => Nest(s.(depth := tmp + 1), t, Inside, n + 1)
      case Spin => if s.lock then s else Move(s.(lock := true, holder := t), t, SetOwner)
      case SetOwner => Move(s.(owner := t), t, SetDepth)
      case SetDepth => Nest(s.(depth := 1), t, Inside, 1)
      case Leave => Move(s, t, Undeepen(s.depth))
      case Undeepen(tmp) =>
        if tmp - 1 == 0 then Nest(s.(depth := 0), t, ClearOwner, 0)
        else Nest(s.(depth := tmp - 1), t, Inside, if n > 0 then n - 1 else 0)
      case ClearOwner => Move(s.(owner := NOBODY), t, Unlock)
      case Unlock => Move(s.(lock := false, holder := NOBODY), t, Idle)
      case DieTestDepth => Move(s, t, if s.depth > 0 then DieTestOwner else Dead)
      case DieTestOwner => Move(s, t, if s.owner == t then DieDepth else Dead)
      case DieDepth => Move(s.(depth := 0), t, DieOwner)
      case DieOwner => Move(s.(owner := NOBODY), t, DieUnlock)
      case DieUnlock => Move(s.(lock := false, holder := NOBODY), t, Dead)
      case Dead => s
  }

  predicate Dying(pc: Pc) {
    pc.DieTestDepth? || pc.DieTestOwner? || pc.DieDepth? || pc.DieOwner? || pc.DieUnlock? || pc.Dead?
  }

  /** The lock variables record that task `t` holds the lock at nesting depth `n`. */
  ghost predicate Holds(s: State, t: nat, n: nat) {
    s.holder == t && s.owner == t && s.depth == n && n >= 1
  }

  ghost predicate TaskOk(s: State, t: nat)
    requires t < |s.tasks|
  {
    var n := s.tasks[t].nest;
    match s.tasks[t].pc
    case Idle | Spin => n == 0 && s.holder != t
    case Inside | ReadDepth | Leave => Holds(s, t, n)
    case TestDepth | TestOwner => if n == 0 then s.holder != t else Holds(s, t, n)
    case Deepen(tmp) => Holds(s, t, n) && tmp == n
    case Undeepen(tmp) => Holds(s, t, n) && tmp == n
    case SetOwner | Unlock => n == 0 && s.holder == t && s.depth == 0 && s.owner == NOBODY
    case SetDepth | ClearOwner => n == 0 && s.holder == t && s.depth == 0 && s.owner == t
    case DieTestDepth | DieTestOwner => n >= 1 ==> Holds(s, t, n)
    case DieDepth => s.holder == t && s.owner == t
    case DieOwner => s.holder == t && s.depth == 0
    case DieUnlock => s.holder == t && s.depth == 0 && s.owner == NOBODY
    case Dead => n >= 1 ==> s.holder != t
  }

  ghost predicate Inv(s: State) {
    && (s.lock <==> s.holder != NOBODY)
    && (s.owner != NOBODY ==> s.owner == s.holder)
    && (s.depth > 0 ==> s.owner != NOBODY) && s.depth >= 0
    && forall t {:trigger TaskOk(s, t)} :: 0 <= t < |s.tasks| ==> TaskOk(s, t)
  }

  lemma InitOk(n: nat)
    ensures Inv(Init(n))
  {
  }

  lemma StepOther(s: State, t: nat, c: Choice, u: nat)
    requires Inv(s) && t < |s.tasks| && u < |s.tasks| && u != t
    ensures TaskOk(Step(s, t, c), u)
  {
    assert TaskOk(s, t) && TaskOk(s, u);
  }

  lemma StepSelf(s: State, t: nat, c: Choice)
    requires Inv(s) && t < |s.tasks|
    ensures TaskOk(Step(s, t, c), t)
  {
    assert TaskOk(s, t);
  }

  /** Every step of every task keeps the invariant. */
  lemma StepKeeps(s: State, t: nat, c: Choice)
    requires Inv(s) && t < |s.tasks|
    ensures Inv(Step(s, t, c)) && |Step(s, t, c).tasks| == |s.tasks|
  {
    var s' := Step(s, t, c);
    assert TaskOk(s, t);
    forall u | 0 <= u < |s.tasks|
      ensures TaskOk(s', u)
    {
      if u == t {
        StepSelf(s, t, c);
      } else {
        StepOther(s, t, c, u);
      }
    }
  }

  // ---- whole runs ----

  datatype Turn = Turn(task: nat, choice: Choice)

  function Run(n: nat, turns: seq<Turn>): (s: State)
    requires forall i :: 0 <= i < |turns| ==> turns[i].task < n
    ensures Inv(s) && |s.tasks| == n
  {
    if turns == [] then
      InitOk(n);
      Init(n)
    else
      var last := turns[|turns| - 1];
      var s := Run(n, turns[..|turns| - 1]);
      StepKeeps(s, last.task, last.choice);
      Step(s, last.task, last.choice)
  }

  /** The task is inside the VFS, perhaps in a nested call or in the act of leaving one, and alive. */
  predicate Busy(s: State, t: nat)
    requires t < |s.tasks|
  {
    s.tasks[t].nest >= 1 && !Dying(s.tasks[t].pc)
  }

  /**
   After any run, at most one task is inside the VFS; it is the recorded owner, and outside the two steps that change it
   the recorded depth is its nesting depth.
   */
  lemma MutualExclusion(n: nat, turns: seq<Turn>, t: nat, u: nat)
    requires (forall i :: 0 <= i < |turns| ==> turns[i].task < n) && t < n && u < n
    ensures var s := Run(n, turns);
      Busy(s, t) ==> s.owner == t && s.depth == s.tasks[t].nest && s.lock && (Busy(s, u) ==> t == u)
  {
    var s := Run(n, turns);
    assert TaskOk(s, t) && TaskOk(s, u);
  }

  /** A task that was killed inside the VFS does not die before it has released the lock. */
  lemma DeadHoldsNothing(n: nat, turns: seq<Turn>, t: nat)
    requires (forall i :: 0 <= i < |turns| ==> turns[i].task < n) && t < n
    ensures var s := Run(n, turns); s.tasks[t].pc == Dead && s.tasks[t].nest >= 1 ==> s.holder != t
  {
    assert TaskOk(Run(n, turns), t);
  }

  /** A task with the lock free, at rest or in the spin loop, gets in in a bounded number of its own steps. */
  lemma FreeLockIsTaken(s: State, t: nat)
    requires Inv(s) && t < |s.tasks| && s.tasks[t].pc == Spin && !s.lock
    ensures
      var s1 := Step(s, t, Enter);
      var s2 := Step(s1, t, Enter);
      var s3 := Step(s2, t, Enter);
      s3.tasks[t] == Task(Inside, 1) && Holds(s3, t, 1)
  {
  }

  /** `k` steps of task `t` in a row. */
  function Steps(s: State, t: nat, c: Choice, k: nat): (r: State)
    requires t < |s.tasks|
    ensures |r.tasks| == |s.tasks|
    decreases k
  {
    if k == 0 then s else Steps(Step(s, t, c), t, c, k - 1)
  }

  lemma StepsAdd(s: State, t: nat, c: Choice, k: nat)
    requires t < |s.tasks| && k > 0
    ensures Steps(s, t, c, k) == Steps(Step(s, t, c), t, c, k - 1)
  {
  }

  lemma FourSteps(s: State, t: nat, c: Choice)
    requires t < |s.tasks|
    ensures Steps(s, t, c, 4) == Step(Step(Step(Step(s, t, c), t, c), t, c), t, c)
  {
    StepsAdd(s, t, c, 4);
    StepsAdd(Step(s, t, c), t, c, 3);
  }

  lemma FiveSteps(s: State, t: nat, c: Choice, s1: State, s2: State, s3: State, s4: State)
    requires t < |s.tasks| && s1 == Step(s, t, c) && |s1.tasks| == |s2.tasks| == |s3.tasks| == |s4.tasks| == |s.tasks|
    requires s2 == Step(s1, t, c) && s3 == Step(s2, t, c) && s4 == Step(s3, t, c)
    ensures Steps(s, t, c, 5) == Step(s4, t, c)
  {
    StepsAdd(s, t, c, 5);
    FourSteps(s1, t, c);
  }

  /** The state with other lock variables and another task `t`. */
  function With(s: State, t: nat, lock: bool, owner: int, depth: int, task: Task): (r: State)
    requires t < |s.tasks|
    ensures |r.tasks| == |s.tasks|
  {
    State(lock, owner, depth, s.tasks[t := task], if lock then t else NOBODY)
  }

  lemma WithTwice(s: State, t: nat, task: Task, task': Task)
    requires t < |s.tasks|
    ensures s.tasks[t := task][t := task'] == s.tasks[t := task']
    ensures s.tasks[t := s.tasks[t]] == s.tasks
  {
  }

  lemma Enters(s: State, t: nat)
    requires s == State(false, NOBODY, 0, s.tasks, NOBODY) && t < |s.tasks| && s.tasks[t] == Task(Idle, 0)
    ensures Steps(s, t, Enter, 5) == With(s, t, true, t, 1, Task(Inside, 1))
  {
    var s1 := With(s, t, false, NOBODY, 0, Task(TestDepth, 0));
    var s2 := With(s, t, false, NOBODY, 0, Task(Spin, 0));
    var s3 := With(s, t, true, NOBODY, 0, Task(SetOwner, 0));
    var s4 := With(s, t, true, t, 0, Task(SetDepth, 0));
    WithTwice(s, t, Task(TestDepth, 0), Task(Spin, 0));
    WithTwice(s, t, Task(Spin, 0), Task(SetOwner, 0));
    WithTwice(s, t, Task(SetOwner, 0), Task(SetDepth, 0));
    WithTwice(s, t, Task(SetDepth, 0), Task(Inside, 1));
    FiveSteps(s, t, Enter, s1, s2, s3, s4);
  }

  lemma Leaves(s: State, t: nat)
    requires s == State(false, NOBODY, 0, s.tasks, NOBODY) && t < |s.tasks| && s.tasks[t] == Task(Idle, 0)
    ensures Steps(With(s, t, true, t, 1, Task(Inside, 1)), t, Exit, 5) == s
  {
    var s0 := With(s, t, true, t, 1, Task(Inside, 1));
    var s1 := With(s, t, true, t, 1, Task(Leave, 1));
    var s2 := With(s, t, true, t, 1, Task(Undeepen(1), 1));
    var s3 := With(s, t, true, t, 0, Task(ClearOwner, 0));
    WithTwice(s, t, Task(Inside, 1), Task(Leave, 1));
    WithTwice(s, t, Task(Leave, 1), Task(Undeepen(1), 1));
    WithTwice(s, t, Task(Undeepen(1), 1), Task(ClearOwner, 0));
    var s4 := With(s, t, true, NOBODY, 0, Task(Unlock, 0));
    WithTwice(s, t, Task(ClearOwner, 0), Task(Unlock, 0));
    WithTwice(s, t, Task(Unlock, 0), Task(Idle, 0));
    FiveSteps(s0, t, Exit, s1, s2, s3, s4);
  }

  /**
   Undisturbed, a task at rest gets in when the lock is free, in five steps, and when it leaves again, in five more, all
   is as it was.
   */
  lemma EnterAndLeave(s: State, t: nat)
    requires Inv(s) && t < |s.tasks| && s.tasks[t].pc == Idle && !s.lock
    ensures
      var inside := Steps(s, t, Enter, 5);
      && Holds(inside, t, 1) && Busy(inside, t) && inside.tasks == s.tasks[t := Task(Inside, 1)]
      && Steps(inside, t, Exit, 5) == s
  {
    assert TaskOk(s, t);
    Enters(s, t);
    Leaves(s, t);
  }

  lemma Deepens(s: State, t: nat)
    requires Inv(s) && t < |s.tasks| && s.tasks[t].pc == Inside
    ensures var n := s.tasks[t].nest; Steps(s, t, Enter, 5) == With(s, t, true, t, n + 1, Task(Inside, n + 1))
  {
    assert TaskOk(s, t);
    var n := s.tasks[t].nest;
    var s1 := With(s, t, true, t, n, Task(TestDepth, n));
    var s2 := With(s, t, true, t, n, Task(TestOwner, n));
    var s3 := With(s, t, true, t, n, Task(ReadDepth, n));
    var s4 := With(s, t, true, t, n, Task(Deepen(n), n));
    WithTwice(s, t, Task(TestDepth, n), Task(TestOwner, n));
    WithTwice(s, t, Task(TestOwner, n), Task(ReadDepth, n));
    WithTwice(s, t, Task(ReadDepth, n), Task(Deepen(n), n));
    WithTwice(s, t, Task(Deepen(n), n), Task(Inside, n + 1));
    FiveSteps(s, t, Enter, s1, s2, s3, s4);
  }

  lemma Rises(s: State, t: nat)
    requires Inv(s) && t < |s.tasks| && s.tasks[t].pc == Inside
    ensures var n := s.tasks[t].nest; Steps(With(s, t, true, t, n + 1, Task(Inside, n + 1)), t, Exit, 3) == s
  {
    assert TaskOk(s, t);
    var n := s.tasks[t].nest;
    var s0 := With(s, t, true, t, n + 1, Task(Inside, n + 1));
    var s1 := With(s, t, true, t, n + 1, Task(Leave, n + 1));
    var s2 := With(s, t, true, t, n + 1, Task(Undeepen(n + 1), n + 1));
    WithTwice(s, t, Task(Inside, n + 1), Task(Leave, n + 1));
    WithTwice(s, t, Task(Leave, n + 1), Task(Undeepen(n + 1), n + 1));
    WithTwice(s, t, Task(Undeepen(n + 1), n + 1), Task(Inside, n));
    StepsAdd(s0, t, Exit, 3);
    StepsAdd(s1, t, Exit, 2);
    StepsAdd(s2, t, Exit, 1);
  }

  /** A nested call of the task inside goes one deeper in five steps, and its end in three brings everything back. */
  lemma NestedCall(s: State, t: nat)
    requires Inv(s) && t < |s.tasks| && s.tasks[t].pc == Inside
    ensures
      var n, inside := s.tasks[t].nest, Steps(s, t, Enter, 5);
      && Holds(inside, t, n + 1) && inside.tasks == s.tasks[t := Task(Inside, n + 1)]
      && Steps(inside, t, Exit, 3) == s
  {
    Deepens(s, t);
    Rises(s, t);
  }

  /** A task that is killed inside, at whatever depth, is dead after six steps, and the lock is free. */
  lemma KilledInside(s: State, t: nat)
    requires Inv(s) && t < |s.tasks| && s.tasks[t].pc == Inside
    ensures
      var dead := Steps(s, t, Die, 6);
      dead.tasks[t].pc == Dead && !dead.lock && dead.owner == NOBODY && dead.depth == 0
  {
    assert TaskOk(s, t);
    StepsAdd(s, t, Die, 6);
    var s1 := Step(s, t, Die);
    StepsAdd(s1, t, Die, 5);
    FourSteps(Step(s1, t, Die), t, Die);
  }

  /**
   What the lock would not survive is a kill in the four steps between the test-and-set and the store of the depth, or
   between the last store of the depth and the release: the task would die and the lock stay taken. The kernel makes no
   such kills: it kills the current task only when that exits or faults outside the kernel.
   */
  lemma KilledInBetween(s: State, t: nat)
    requires Inv(s) && t < |s.tasks| && !Dying(s.tasks[t].pc) && s.holder == t
    ensures
      var dead := Step(Step(s, t, Die), t, Die);
      var pc := s.tasks[t].pc;
      (dead.tasks[t].pc == Dead && dead.lock)
        <==> (pc == SetOwner || pc == SetDepth || pc == ClearOwner || pc == Unlock)
  {
    assert TaskOk(s, t);
  }
}
