/** The timer-driven scheduler (task.c): round robin over the runnable tasks, each for as many ticks as its priority. */
module Scheduler {

  datatype Status = Ready | Running | Sleeping | Dead

  datatype Task = Task(status: Status, priority: nat, esp: nat)

  predicate Runnable(t: Task) {
    t.status == Ready || t.status == Running
  }

  /** A task that sleeps or is dead is passed over. */
  ghost predicate Idle(t: Task) {
    t.status == Sleeping || t.status == Dead
  }

  /** How many ticks a task has when it is chosen. */
  function Quantum(t: Task): (q: nat)
    ensures FullTurn(t, q)
  {
    if t.priority > 0 then t.priority else 1
  }

  /** A turn of `n` ticks is as long as the priority says; priority 0 counts as 1. */
  ghost predicate FullTurn(t: Task, n: nat) {
    n >= 1 && (t.priority >= 1 ==> n == t.priority) && (t.priority == 0 ==> n == 1)
  }

  /** `t` is the first task after `c`, going around, that is not idle; `c` itself comes last. */
  ghost predicate IsNext(tasks: seq<Task>, c: nat, t: nat) {
    && c < |tasks| && t < |tasks| && !Idle(tasks[t])
    && if c < t then forall j :: c < j < t ==> Idle(tasks[j])
       else (forall j :: c < j < |tasks| ==> Idle(tasks[j])) && forall j :: 0 <= j < t ==> Idle(tasks[j])
  }

  lemma NextUnique(tasks: seq<Task>, c: nat, t: nat, u: nat)
    requires IsNext(tasks, c, t) && IsNext(tasks, c, u)
    ensures t == u
  {
  }

  class Machine {
    var tasks: seq<Task>
    var current: nat
    var left: nat

    constructor (tasks: seq<Task>, current: nat)
      requires current < |tasks|
      ensures Valid() && this.tasks == tasks && this.current == current && left == 0
    {
      this.tasks, this.current, left := tasks, current, 0;
    }

    ghost predicate Valid()
      reads this
    {
      current < |tasks|
    }

    /** The search for the next runnable task. */
    method FindNext() returns (found: bool, t: nat)
      requires Valid()
      ensures found ==> IsNext(tasks, current, t)
      ensures !found ==> forall j :: 0 <= j < |tasks| ==> Idle(tasks[j])
    {
      t := current;
      var tries := 0;
      while tries < |tasks|
        invariant 0 <= tries <= |tasks|
        invariant t == if current + tries < |tasks| then current + tries else current + tries - |tasks|
        invariant forall j :: current < j < |tasks| && j <= current + tries ==> !Runnable(tasks[j])
        invariant forall j :: 0 <= j <= current + tries - |tasks| ==> !Runnable(tasks[j])
      {
        t := t + 1;
        if t >= |tasks| {
          t := 0;
        }
        if Runnable(tasks[t]) {
          return true, t;
        }
        tries := tries + 1;
      }
      found := false;
    }

    /**
     One timer interrupt: stores the stack pointer of the interrupted task and returns that of the task to go on with.
     */
    method Tick(esp: nat) returns (r: nat)
      requires Valid()
      modifies this
      ensures Valid() && |tasks| == |old(tasks)|
      ensures |tasks| <= 1 ==> r == esp && tasks == old(tasks) && current == old(current) && left == old(left)
      ensures |tasks| > 1 ==>
        r == tasks[current].esp && Stores(Snapshot(old(tasks), old(current)), esp, Snapshot(tasks, current))
      ensures |tasks| > 1 && (old(left) > 0 || AnyRunnable(old(tasks))) ==>
        Ticked(State(old(tasks), old(current), old(left)), esp, State(tasks, current, left))
      ensures |tasks| > 1 && old(left) == 0 && !AnyRunnable(old(tasks)) ==>
        && current == (if old(tasks)[0].status != Dead then 0 else old(current))
        && (forall j :: 0 <= j < |tasks| ==>
            tasks[j].status == if j == 0 && old(tasks)[0].status != Dead then Running else old(tasks)[j].status)
        && FullTurn(tasks[current], left + 1)
    {
      if |tasks| <= 1 {
        return esp;
      }
      tasks := tasks[current := tasks[current].(esp := esp)];
      if left > 0 {
        left := left - 1;
        return tasks[current].esp;
      }
      var start := current;
      var found, t := FindNext();
      if found {
        SameNext(old(tasks), current, esp, t);
        current := t;
      } else {
        NoneRunnable(old(tasks), current, esp);
        if tasks[0].status != Dead {
          current := 0;
          tasks := tasks[0 := tasks[0].(status := Running)];
        }
      }
      left := Quantum(tasks[current]) - 1;
      return tasks[current].esp;
    }
  }

  ghost predicate AnyRunnable(tasks: seq<Task>) {
    exists j :: 0 <= j < |tasks| && !Idle(tasks[j])
  }

  /** The choice of one interrupt. */
  ghost predicate Stepped(tasks: seq<Task>, c: nat, left: nat, c': nat, left': nat) {
    if left > 0 then c' == c && left' == left - 1
    else IsNext(tasks, c, c') && FullTurn(tasks[c'], left' + 1)
  }

  datatype State = State(tasks: seq<Task>, current: nat, left: nat)

  /** One interrupt while a task can be chosen: it stores one stack pointer and makes one choice. */
  ghost predicate Ticked(s: State, esp: nat, s': State) {
    && s.current < |s.tasks| && s'.tasks == s.tasks[s.current := s.tasks[s.current].(esp := esp)]
    && Stepped(s.tasks, s.current, s.left, s'.current, s'.left)
  }

  lemma SameNext(tasks: seq<Task>, c: nat, esp: nat, t: nat)
    requires c < |tasks| && IsNext(tasks[c := tasks[c].(esp := esp)], c, t)
    ensures IsNext(tasks, c, t) && Quantum(tasks[t]) == Quantum(tasks[c := tasks[c].(esp := esp)][t])
  {
    var after := tasks[c := tasks[c].(esp := esp)];
    forall j | 0 <= j < |tasks|
      ensures Idle(after[j]) == Idle(tasks[j])
    {
    }
  }

  lemma NoneRunnable(tasks: seq<Task>, c: nat, esp: nat)
    requires c < |tasks| && !AnyRunnable(tasks[c := tasks[c].(esp := esp)])
    ensures !AnyRunnable(tasks)
  {
    var after := tasks[c := tasks[c].(esp := esp)];
    forall j | 0 <= j < |tasks|
      ensures Idle(tasks[j])
    {
      assert Idle(after[j]);
    }
  }

  // ---- runs with a fixed set of runnable tasks ----

  /** The runnable tasks below `n`, in order. */
  function Listed(tasks: seq<Task>, n: nat): (list: seq<nat>)
    requires n <= |tasks|
    ensures forall k :: 0 <= k < |list| ==> list[k] < n && Runnable(tasks[list[k]])
    ensures forall k, l :: 0 <= k < l < |list| ==> list[k] < list[l]
    ensures forall j :: 0 <= j < n && Runnable(tasks[j]) ==> j in list
  {
    if n == 0 then [] else Listed(tasks, n - 1) + if Runnable(tasks[n - 1]) then [n - 1] else []
  }

  function Order(tasks: seq<Task>): (list: seq<nat>)
    ensures forall k :: 0 <= k < |list| ==> list[k] < |tasks| && Runnable(tasks[list[k]])
    ensures forall k, l :: 0 <= k < l < |list| ==> list[k] < list[l]
    ensures forall j :: 0 <= j < |tasks| && Runnable(tasks[j]) ==> j in list
  {
    Listed(tasks, |tasks|)
  }

  /** The place after `i` in the order, going around. */
  function After(i: nat, m: nat): (r: nat)
    requires i < m
    ensures r < m
  {
    if i + 1 == m then 0 else i + 1
  }

  /** The next runnable task is the next one in the order. */
  lemma NextInOrder(tasks: seq<Task>, i: nat)
    requires i < |Order(tasks)|
    ensures IsNext(tasks, Order(tasks)[i], Order(tasks)[After(i, |Order(tasks)|)])
  {
    var list := Order(tasks);
    var m := |list|;
    var c, t := list[i], list[After(i, m)];
    forall j | 0 <= j < |tasks| && Runnable(tasks[j])
      ensures j <= c || (i + 1 < m && j >= t)
      ensures i + 1 == m ==> j >= t
    {
      var k: nat :| k < m && list[k] == j;
    }
  }

  /** A place in the order and the ticks that are left there after the current one. */
  datatype Point = Point(place: nat, left: nat)

  /** The quanta of the runnable tasks, in their order. */
  type Quanta = s: seq<nat> | forall i :: 0 <= i < |s| ==> s[i] >= 1

  function QuantaOf(tasks: seq<Task>): (q: Quanta)
    ensures |q| == |Order(tasks)| && forall i :: 0 <= i < |q| ==> q[i] == Quantum(tasks[Order(tasks)[i]])
  {
    seq(|Order(tasks)|, i requires 0 <= i < |Order(tasks)| => Quantum(tasks[Order(tasks)[i]]))
  }

  /** The task at place `i` has just been chosen. */
  function Fresh(q: Quanta, i: nat): Point
    requires i < |q|
  {
    Point(i, q[i] - 1)
  }

  function Move(q: Quanta, p: Point): (r: Point)
    requires p.place < |q|
    ensures r.place < |q|
  {
    if p.left > 0 then Point(p.place, p.left - 1) else Fresh(q, After(p.place, |q|))
  }

  /** The choice that an interrupt makes is the move in the order. */
  lemma MoveIsStep(tasks: seq<Task>, p: Point, c: nat, left: nat)
    requires p.place < |Order(tasks)| && Stepped(tasks, Order(tasks)[p.place], p.left, c, left)
    ensures var r := Move(QuantaOf(tasks), p); c == Order(tasks)[r.place] && left == r.left
  {
    NextInOrder(tasks, p.place);
    if p.left == 0 {
      NextUnique(tasks, Order(tasks)[p.place], c, Order(tasks)[After(p.place, |Order(tasks)|)]);
    }
  }

  /** Where `k` ticks lead. */
  function Later(q: Quanta, p: Point, k: nat): (r: Point)
    requires p.place < |q|
    ensures r.place < |q|
  {
    if k == 0 then p else Move(q, Later(q, p, k - 1))
  }

  /** How many of the `k` ticks from `p` on the task at place `u` has. */
  function Ticks(q: Quanta, p: Point, k: nat, u: nat): nat
    requires p.place < |q|
  {
    if k == 0 then 0 else Ticks(q, p, k - 1, u) + if Later(q, p, k - 1).place == u then 1 else 0
  }

  lemma {:induction false} LaterAdds(q: Quanta, p: Point, a: nat, b: nat, u: nat)
    requires p.place < |q|
    ensures Later(q, p, a + b) == Later(q, Later(q, p, a), b)
    ensures Ticks(q, p, a + b, u) == Ticks(q, p, a, u) + Ticks(q, Later(q, p, a), b, u)
  {
    if b > 0 {
      LaterAdds(q, p, a, b - 1, u);
    }
  }

  /** A task runs for the ticks that are left to it, without interruption. */
  lemma {:induction false} Stays(q: Quanta, p: Point, k: nat, u: nat)
    requires p.place < |q| && k <= p.left
    ensures Later(q, p, k) == Point(p.place, p.left - k)
    ensures Ticks(q, p, k, u) == if u == p.place then k else 0
  {
    if k > 0 {
      Stays(q, p, k - 1, u);
    }
  }

  /** A chosen task runs for its quantum, and then the next one is chosen. */
  lemma WholeQuantum(q: Quanta, i: nat, u: nat)
    requires i < |q|
    ensures Later(q, Fresh(q, i), q[i]) == Fresh(q, After(i, |q|))
    ensures Ticks(q, Fresh(q, i), q[i], u) == if u == i then q[i] else 0
  {
    Stays(q, Fresh(q, i), q[i] - 1, u);
  }

  /** The place `d` places after `i`, for up to one time around. */
  function Plus(i: nat, d: nat, m: nat): (r: nat)
    requires i < m && d <= m
    ensures r < m
  {
    if i + d < m then i + d else i + d - m
  }

  /** How many places after `i` the place `u` comes. */
  function Distance(i: nat, u: nat, m: nat): (d: nat)
    requires i < m && u < m
    ensures d < m && Plus(i, d, m) == u
  {
    if u >= i then u - i else u - i + m
  }

  /** The ticks of `d` quanta from place `i` on. */
  function Span(q: Quanta, i: nat, d: nat): nat
    requires i < |q| && d <= |q|
  {
    if d == 0 then 0 else Span(q, i, d - 1) + q[Plus(i, d - 1, |q|)]
  }

  /** After `d` quanta, each of the first `d` tasks had its quantum and no other had a tick. */
  lemma {:induction false} SeveralQuanta(q: Quanta, i: nat, d: nat, u: nat)
    requires i < |q| && d <= |q| && u < |q|
    ensures Later(q, Fresh(q, i), Span(q, i, d)) == Fresh(q, Plus(i, d, |q|))
    ensures Ticks(q, Fresh(q, i), Span(q, i, d), u)
      == if Distance(i, u, |q|) < d then q[u] else 0
  {
    if d > 0 {
      var m := |q|;
      var last := Plus(i, d - 1, m);
      SeveralQuanta(q, i, d - 1, u);
      WholeQuantum(q, last, u);
      LaterAdds(q, Fresh(q, i), Span(q, i, d - 1), q[last], u);
    }
  }

  lemma {:induction false} SpanAdds(q: Quanta, i: nat, a: nat, b: nat)
    requires i < |q| && a + b <= |q|
    ensures Span(q, i, a + b) == Span(q, i, a) + Span(q, Plus(i, a, |q|), b)
  {
    if b > 0 {
      SpanAdds(q, i, a, b - 1);
      var m := |q|;
      assert Plus(i, a + b - 1, m) == Plus(Plus(i, a, m), b - 1, m);
    }
  }

  /** A round is as long from wherever it starts. */
  lemma RoundLength(q: Quanta, i: nat)
    requires i < |q|
    ensures Span(q, i, |q|) == Span(q, 0, |q|)
  {
    var m := |q|;
    SpanAdds(q, 0, i, m - i);
    SpanAdds(q, i, m - i, i);
  }

  /** In one round every runnable task has exactly its quantum, and then the round begins again. */
  lemma Round(q: Quanta, i: nat, u: nat)
    requires i < |q| && u < |q|
    ensures
      var total := Span(q, 0, |q|);
      && Later(q, Fresh(q, i), total) == Fresh(q, i)
      && Ticks(q, Fresh(q, i), total, u) == q[u]
  {
    RoundLength(q, i);
    SeveralQuanta(q, i, |q|, u);
  }

  /** The ticks until the task at place `u` is chosen: the rest of the current quantum and the quanta in between. */
  function Wait(q: Quanta, p: Point, u: nat): nat
    requires p.place < |q| && u < |q|
  {
    var next := After(p.place, |q|);
    p.left + 1 + Span(q, next, Distance(next, u, |q|))
  }

  /** A runnable task waits exactly that long: at most the rest of the current quantum and the quanta of all others. */
  lemma Waits(q: Quanta, p: Point, u: nat)
    requires p.place < |q| && u < |q| && u != p.place
    ensures Later(q, p, Wait(q, p, u)) == Fresh(q, u) && Ticks(q, p, Wait(q, p, u), u) == 0
    ensures Wait(q, p, u) <= p.left + 1 + Span(q, 0, |q|) - q[u] - q[p.place]
  {
    var next := After(p.place, |q|);
    var d := Distance(next, u, |q|);
    RestOfQuantum(q, p, u);
    WaitsAfter(q, next, u, d);
    WaitBound(q, p, u);
    LaterAdds(q, p, p.left + 1, Span(q, next, d), u);
  }

  lemma WaitsAfter(q: Quanta, i: nat, u: nat, d: nat)
    requires i < |q| && u < |q| && d == Distance(i, u, |q|)
    ensures Later(q, Fresh(q, i), Span(q, i, d)) == Fresh(q, u) && Ticks(q, Fresh(q, i), Span(q, i, d), u) == 0
  {
    SeveralQuanta(q, i, d, u);
  }

  lemma RestOfQuantum(q: Quanta, p: Point, u: nat)
    requires p.place < |q| && u != p.place
    ensures Later(q, p, p.left + 1) == Fresh(q, After(p.place, |q|)) && Ticks(q, p, p.left + 1, u) == 0
  {
    Stays(q, p, p.left, u);
  }

  /** The quanta before place `d` of a round, that of place `d` and the last one are among those of the round. */
  lemma OthersOnly(q: Quanta, i: nat, d: nat)
    requires i < |q| && d + 1 < |q|
    ensures Span(q, i, d) + q[Plus(i, d, |q|)] + q[Plus(i, |q| - 1, |q|)] <= Span(q, 0, |q|)
  {
    UpTo(q, i, d);
    AllButLast(q, i);
  }

  lemma UpTo(q: Quanta, i: nat, d: nat)
    requires i < |q| && d + 1 < |q|
    ensures Span(q, i, d) + q[Plus(i, d, |q|)] <= Span(q, i, |q| - 1)
  {
    SpanStep(q, i, d);
    SpanGrows(q, i, d + 1, |q| - 1);
  }

  lemma AllButLast(q: Quanta, i: nat)
    requires i < |q|
    ensures Span(q, i, |q| - 1) + q[Plus(i, |q| - 1, |q|)] == Span(q, 0, |q|)
  {
    SpanStep(q, i, |q| - 1);
    RoundLength(q, i);
  }

  lemma SpanStep(q: Quanta, i: nat, d: nat)
    requires i < |q| && d < |q|
    ensures Span(q, i, d + 1) == Span(q, i, d) + q[Plus(i, d, |q|)]
  {
  }

  lemma WaitBound(q: Quanta, p: Point, u: nat)
    requires p.place < |q| && u < |q| && u != p.place
    ensures Wait(q, p, u) <= p.left + 1 + Span(q, 0, |q|) - q[u] - q[p.place]
  {
    var m := |q|;
    var next := After(p.place, m);
    var d := Distance(next, u, m);
    assert Plus(next, m - 1, m) == p.place && d + 1 < m;
    OthersOnly(q, next, d);
  }

  lemma {:induction false} SpanGrows(q: Quanta, i: nat, d: nat, e: nat)
    requires i < |q| && d <= e <= |q|
    ensures Span(q, i, d) <= Span(q, i, e)
    decreases e
  {
    if d < e {
      SpanGrows(q, i, d, e - 1);
    }
  }

  // ---- runs of the machine ----

  /** The same tasks can run, for as long. */
  ghost predicate SameTasks(tasks: seq<Task>, tasks': seq<Task>) {
    && |tasks'| == |tasks|
    && forall j :: 0 <= j < |tasks| ==> tasks'[j].status == tasks[j].status && tasks'[j].priority == tasks[j].priority
  }

  lemma {:induction false} SameListed(tasks: seq<Task>, tasks': seq<Task>, n: nat)
    requires SameTasks(tasks, tasks') && n <= |tasks|
    ensures Listed(tasks', n) == Listed(tasks, n)
  {
    if n > 0 {
      SameListed(tasks, tasks', n - 1);
    }
  }

  lemma SameQuanta(tasks: seq<Task>, tasks': seq<Task>)
    requires SameTasks(tasks, tasks')
    ensures Order(tasks') == Order(tasks) && QuantaOf(tasks') == QuantaOf(tasks)
  {
    SameListed(tasks, tasks', |tasks|);
  }

  /** Interrupts with the stack pointers `esps` lead from each state to the next. */
  ghost predicate Runs(run: seq<State>, esps: seq<nat>) {
    |run| == |esps| + 1 && forall k :: 0 <= k < |esps| ==> Ticked(run[k], esps[k], run[k + 1])
  }

  /** State `s` is at point `p` of the order of its tasks. */
  ghost predicate AtPoint(s: State, p: Point) {
    p.place < |Order(s.tasks)| && s.current == Order(s.tasks)[p.place] && s.left == p.left
  }

  /** The state of the machine after `k` interrupts is the point that `k` moves lead to. */
  lemma {:induction false} RunIsLater(run: seq<State>, esps: seq<nat>, p: Point, k: nat)
    requires Runs(run, esps) && k <= |esps| && AtPoint(run[0], p)
    ensures SameTasks(run[0].tasks, run[k].tasks) && p.place < |QuantaOf(run[0].tasks)|
    ensures AtPoint(run[k], Later(QuantaOf(run[0].tasks), p, k))
  {
    if k > 0 {
      RunIsLater(run, esps, p, k - 1);
      SameQuanta(run[0].tasks, run[k - 1].tasks);
      assert Ticked(run[k - 1], esps[k - 1], run[k - 1 + 1]);
      TickMoves(run[k - 1], esps[k - 1], run[k], Later(QuantaOf(run[0].tasks), p, k - 1));
    }
  }

  lemma TickMoves(s: State, esp: nat, s': State, p: Point)
    requires Ticked(s, esp, s') && AtPoint(s, p)
    ensures SameTasks(s.tasks, s'.tasks) && AtPoint(s', Move(QuantaOf(s.tasks), p))
  {
    SameQuanta(s.tasks, s'.tasks);
    MoveIsStep(s.tasks, p, s'.current, s'.left);
  }

  /** How many of the first `k` ticks of a run task `t` has. */
  ghost function RunTicks(run: seq<State>, k: nat, t: nat): nat
    requires k <= |run|
  {
    if k == 0 then 0 else RunTicks(run, k - 1, t) + if run[k - 1].current == t then 1 else 0
  }

  lemma {:induction false} RunTicksAre(run: seq<State>, esps: seq<nat>, p: Point, k: nat, u: nat)
    requires Runs(run, esps) && k <= |esps| && AtPoint(run[0], p) && u < |Order(run[0].tasks)|
    ensures RunTicks(run, k, Order(run[0].tasks)[u]) == Ticks(QuantaOf(run[0].tasks), p, k, u)
  {
    if k > 0 {
      RunTicksAre(run, esps, p, k - 1, u);
      TickOf(run, esps, p, k - 1, u);
    }
  }

  lemma TickOf(run: seq<State>, esps: seq<nat>, p: Point, k: nat, u: nat)
    requires Runs(run, esps) && k <= |esps| && AtPoint(run[0], p) && u < |Order(run[0].tasks)|
    ensures p.place < |QuantaOf(run[0].tasks)|
    ensures run[k].current == Order(run[0].tasks)[u] <==> Later(QuantaOf(run[0].tasks), p, k).place == u
  {
    RunIsLater(run, esps, p, k);
    SameQuanta(run[0].tasks, run[k].tasks);
    SamePlace(run[0].tasks, Later(QuantaOf(run[0].tasks), p, k).place, u);
  }

  lemma SamePlace(tasks: seq<Task>, i: nat, u: nat)
    requires i < |Order(tasks)| && u < |Order(tasks)|
    ensures Order(tasks)[i] == Order(tasks)[u] <==> i == u
  {
  }

  /** The ticks of one round: the sum of the quanta of the tasks that can run. */
  function RoundOf(tasks: seq<Task>): nat {
    if QuantaOf(tasks) == [] then 0 else Span(QuantaOf(tasks), 0, |QuantaOf(tasks)|)
  }

  /** A task that has just been chosen. */
  ghost predicate JustChosen(s: State) {
    s.current in Order(s.tasks) && s.current < |s.tasks| && FullTurn(s.tasks[s.current], s.left + 1)
  }

  /**
   As long as the same tasks can run, each of them has its quantum in every round, and then the round begins again.
   */
  lemma MachineRound(run: seq<State>, esps: seq<nat>, t: nat)
    requires Runs(run, esps) && JustChosen(run[0]) && RoundOf(run[0].tasks) <= |esps| && t in Order(run[0].tasks)
    ensures FullTurn(run[0].tasks[t], RunTicks(run, RoundOf(run[0].tasks), t))
    ensures var s := run[RoundOf(run[0].tasks)]; s.current == run[0].current && s.left == run[0].left
  {
    var tasks := run[0].tasks;
    var q, total := QuantaOf(tasks), RoundOf(tasks);
    var i: nat :| i < |Order(tasks)| && Order(tasks)[i] == run[0].current;
    var u: nat :| u < |Order(tasks)| && Order(tasks)[u] == t;
    Round(q, i, u);
    RunTicksAre(run, esps, Fresh(q, i), total, u);
    RunIsLater(run, esps, Fresh(q, i), total);
    SameQuanta(tasks, run[total].tasks);
  }

  /** A task that was chosen runs for its quantum, and then the next one that can run is chosen. */
  lemma MachineQuantum(run: seq<State>, esps: seq<nat>, n: nat, k: nat)
    requires Runs(run, esps) && JustChosen(run[0]) && FullTurn(run[0].tasks[run[0].current], n) && k < n <= |esps|
    ensures run[k].current == run[0].current
    ensures JustChosen(run[n]) && IsNext(run[0].tasks, run[0].current, run[n].current)
  {
    var tasks := run[0].tasks;
    var q := QuantaOf(tasks);
    var i: nat :| i < |Order(tasks)| && Order(tasks)[i] == run[0].current;
    RunIsLater(run, esps, Fresh(q, i), k);
    SameQuanta(tasks, run[k].tasks);
    Stays(q, Fresh(q, i), k, i);
    RunIsLater(run, esps, Fresh(q, i), n);
    SameQuanta(tasks, run[n].tasks);
    WholeQuantum(q, i, i);
    NextInOrder(tasks, i);
  }

  /** The rest of the current quantum and the quanta of all tasks but the current one and `t`. */
  function Patience(s: State, t: nat): int
    requires s.current < |s.tasks| && t < |s.tasks|
  {
    s.left + 1 + RoundOf(s.tasks) - Quantum(s.tasks[t]) - Quantum(s.tasks[s.current])
  }

  /** The ticks until task `t` is chosen: at most the rest of the current quantum and the quanta of all others. */
  lemma MachineWaits(run: seq<State>, esps: seq<nat>, t: nat) returns (n: nat)
    requires Runs(run, esps) && run[0].current in Order(run[0].tasks)
    requires t in Order(run[0].tasks) && t != run[0].current
    requires Patience(run[0], t) <= |esps|
    ensures n <= Patience(run[0], t)
    ensures n <= |esps| && run[n].current == t && JustChosen(run[n]) && RunTicks(run, n, t) == 0
  {
    var tasks := run[0].tasks;
    var q := QuantaOf(tasks);
    var i: nat :| i < |Order(tasks)| && Order(tasks)[i] == run[0].current;
    var u: nat :| u < |Order(tasks)| && Order(tasks)[u] == t;
    var p := Point(i, run[0].left);
    Waits(q, p, u);
    n := Wait(q, p, u);
    RunIsLater(run, esps, p, n);
    SameQuanta(tasks, run[n].tasks);
    RunTicksAre(run, esps, p, n, u);
  }

  // ---- stack pointers ----

  datatype Snapshot = Snapshot(tasks: seq<Task>, current: nat)

  /** One interrupt stores one stack pointer, that of the task that was running. */
  ghost predicate Stores(s: Snapshot, esp: nat, s': Snapshot) {
    && s.current < |s.tasks| && s'.current < |s.tasks| && |s'.tasks| == |s.tasks|
    && forall j :: 0 <= j < |s.tasks| ==> s'.tasks[j].esp == if j == s.current then esp else s.tasks[j].esp
  }

  /** A task that is interrupted with a stack pointer finds it in its slot when it is chosen again. */
  lemma {:induction false} Resumes(run: seq<Snapshot>, esps: seq<nat>, begin: nat, end: nat)
    requires |run| == |esps| + 1 && begin < end <= |esps|
    requires forall k :: 0 <= k < |esps| ==> Stores(run[k], esps[k], run[k + 1])
    requires forall k :: begin < k < end ==> run[k].current != run[begin].current
    ensures run[begin].current < |run[end].tasks| && run[end].tasks[run[begin].current].esp == esps[begin]
    decreases end
  {
    assert Stores(run[begin], esps[begin], run[begin + 1]);
    if end > begin + 1 {
      Resumes(run, esps, begin, end - 1);
      assert Stores(run[end - 1], esps[end - 1], run[end - 1 + 1]);
    }
  }
}
