/** The ready queue of src/kernel/sched/sched.c: a circular list of tasks.

    `Sched` is the abstract scheduler: the rotation as a sequence (its head is the ready_queue
    pointer), the task states and the current task.  The class keeps the circle of next pointers
    and is proved to follow it step by step. */
module Scheduler {
  import opened Machine

  datatype TaskState = Ready | Running | Blocked | Zombie

  datatype Sched<T> = Sched(ring: seq<T>, state: map<T, TaskState>, current: Option<T>)

  ghost predicate Distinct<T>(s: seq<T>) {
    forall i, j :: 0 <= i < j < |s| ==> s[i] != s[j]
  }

  ghost predicate WellFormed<T>(s: Sched<T>) {
    && Distinct(s.ring)
    && (forall t :: t in s.ring ==> t in s.state)
    && (forall t :: t in s.state ==> t in s.ring)
    && (s.current.Some? ==> s.current.value in s.ring)
  }

  /** The position of the first ready task, or the length of the ring. */
  function FirstReady<T(==)>(ring: seq<T>, state: map<T, TaskState>): (i: nat)
    ensures i <= |ring|
  {
    if ring == [] || IsReady(ring[0], state) then 0 else 1 + FirstReady(ring[1..], state)
  }

  predicate IsReady<T(==)>(t: T, state: map<T, TaskState>) {
    t in state && state[t] == Ready
  }

  lemma {:induction false} FirstReadyAt<T>(ring: seq<T>, state: map<T, TaskState>, i: nat)
    requires i <= |ring|
    ensures FirstReady(ring, state) == i
       <==> (i < |ring| ==> IsReady(ring[i], state)) && forall j :: 0 <= j < i ==> !IsReady(ring[j], state)
  {
    if ring == [] {
    } else if i == 0 {
    } else {
      FirstReadyAt(ring[1..], state, i - 1);
      assert forall j :: 0 < j < i ==> ring[j] == ring[1..][j - 1];
      assert forall j :: 0 <= j < i - 1 ==> ring[1..][j] == ring[j + 1];
    }
  }

  function Rotated<T>(ring: seq<T>, n: nat): seq<T>
    requires n <= |ring|
  {
    ring[n..] + ring[..n]
  }

  /** scheduler_pick_next: the first ready task, and the ring turned to just after it. */
  function Picked<T(==)>(s: Sched<T>): Option<T> {
    var i := FirstReady(s.ring, s.state);
    if i < |s.ring| then Some(s.ring[i]) else None
  }

  function AfterPick<T(==)>(s: Sched<T>): Sched<T> {
    var i := FirstReady(s.ring, s.state);
    if i < |s.ring| then s.(ring := Rotated(s.ring, i + 1)) else s
  }

  lemma PickedAt<T>(s: Sched<T>, i: nat)
    requires i < |s.ring| && FirstReady(s.ring, s.state) == i
    ensures Picked(s) == Some(s.ring[i]) && AfterPick(s) == s.(ring := Rotated(s.ring, i + 1))
  {
  }

  function AfterAdd<T(==)>(s: Sched<T>, task: T, state: TaskState): Sched<T> {
    s.(ring := s.ring + [task], state := s.state[task := state])
  }

  function AfterSwitch<T(==)>(s: Sched<T>, task: T): Sched<T> {
    s.(current := Some(task), state := s.state[task := Running])
  }

  function AfterYield<T(==)>(s: Sched<T>): Sched<T> {
    if s.current.None? then s else
    var waiting := s.(state := s.state[s.current.value := Ready]);
    var turned := AfterPick(waiting);
    if Picked(waiting).Some? && Picked(waiting) != s.current
    then AfterSwitch(turned, Picked(waiting).value)
    else turned
  }

  function AfterYields<T(==)>(s: Sched<T>, n: nat): Sched<T> {
    if n == 0 then s else AfterYield(AfterYields(s, n - 1))
  }

  lemma RotatedKeepsMembers<T>(ring: seq<T>, n: nat)
    requires n <= |ring| && Distinct(ring)
    ensures Distinct(Rotated(ring, n)) && |Rotated(ring, n)| == |ring|
    ensures forall t :: t in Rotated(ring, n) <==> t in ring
  {
    var r := Rotated(ring, n);
    forall t ensures t in r <==> t in ring {
      if t in ring {
        var i :| 0 <= i < |ring| && ring[i] == t;
        assert r[if i < n then |ring| - n + i else i - n] == t;
      }
    }
  }

  lemma PickKeepsWellFormed<T>(s: Sched<T>)
    requires WellFormed(s)
    ensures WellFormed(AfterPick(s)) && |AfterPick(s).ring| == |s.ring|
    ensures AfterPick(s).state == s.state && (Picked(s).Some? ==> Picked(s).value in AfterPick(s).ring)
  {
    hide FirstReady, IsReady;
    var i := FirstReady(s.ring, s.state);
    FirstReadyAt(s.ring, s.state, i);
    if i < |s.ring| {
      RotatedKeepsMembers(s.ring, i + 1);
    }
  }

  /** At most one task is running, and it is the current one. */
  ghost predicate OnlyCurrentRuns<T>(s: Sched<T>) {
    forall t :: t in s.state && s.state[t] == Running ==> s.current == Some(t)
  }

  lemma YieldKeeps<T>(s: Sched<T>)
    requires WellFormed(s) && OnlyCurrentRuns(s)
    ensures WellFormed(AfterYield(s)) && OnlyCurrentRuns(AfterYield(s))
    ensures AfterYield(s).state.Keys == s.state.Keys && |AfterYield(s).ring| == |s.ring|
  {
    if s.current.Some? {
      var waiting := s.(state := s.state[s.current.value := Ready]);
      PickKeepsWellFormed(waiting);
      if Picked(waiting).Some? && Picked(waiting) != s.current {
        SwitchKeeps(AfterPick(waiting), Picked(waiting).value);
      }
    }
  }

  lemma SwitchKeeps<T>(s: Sched<T>, task: T)
    requires WellFormed(s) && task in s.ring && forall t :: t in s.state ==> s.state[t] != Running
    ensures WellFormed(AfterSwitch(s, task)) && OnlyCurrentRuns(AfterSwitch(s, task))
    ensures AfterSwitch(s, task).state.Keys == s.state.Keys
  {
  }

  /** A yield makes the current task READY and goes on with the first READY one: if that is another one, it
      is RUNNING; no other state changes. */
  lemma YieldSwitches<T>(s: Sched<T>) returns (i: nat)
    requires WellFormed(s) && s.current.Some?
    ensures i < |s.ring| && (s.ring[i] == s.current.value || IsReady(s.ring[i], s.state))
    ensures forall j :: 0 <= j < i ==> s.ring[j] != s.current.value && !IsReady(s.ring[j], s.state)
    ensures var s' := AfterYield(s);
            && s'.current == Some(s.ring[i]) && s'.ring == s.ring[i + 1..] + s.ring[..i + 1]
            && s'.state.Keys == s.state.Keys
            && forall t :: t in s.state ==>
                 s'.state[t] == if t == s.ring[i] != s.current.value then Running
                                else if t == s.current.value then Ready else s.state[t]
  {
    hide FirstReady, Distinct, IsReady, Picked, AfterPick;
    i := FirstToGoOn(s, s.current.value);
    PickedAt(s.(state := s.state[s.current.value := Ready]), i);
  }

  lemma FirstToGoOn<T>(s: Sched<T>, current: T) returns (i: nat)
    requires WellFormed(s) && current in s.ring
    ensures i < |s.ring| && FirstReady(s.ring, s.state[current := Ready]) == i
    ensures s.ring[i] == current || IsReady(s.ring[i], s.state)
    ensures forall j :: 0 <= j < i ==> s.ring[j] != current && !IsReady(s.ring[j], s.state)
  {
    hide FirstReady, Distinct;
    var state := s.state[current := Ready];
    var k :| 0 <= k < |s.ring| && s.ring[k] == current;
    i := FirstReady(s.ring, state);
    FirstReadyAt(s.ring, state, i);
    assert IsReady(s.ring[k], state);
    forall j | 0 <= j < |s.ring| ensures IsReady(s.ring[j], state) <==> s.ring[j] == current || IsReady(s.ring[j], s.state) {}
  }

  /** Over any run of yields the ring keeps its members and only the current task may run. */
  lemma {:induction false} YieldsKeep<T>(s: Sched<T>, n: nat)
    requires WellFormed(s) && OnlyCurrentRuns(s)
    ensures WellFormed(AfterYields(s, n)) && OnlyCurrentRuns(AfterYields(s, n))
    ensures AfterYields(s, n).state.Keys == s.state.Keys && |AfterYields(s, n).ring| == |s.ring|
  {
    if n != 0 {
      YieldsKeep(s, n - 1);
      YieldKeeps(AfterYields(s, n - 1));
    }
  }

  /** A yield leaves a running task exactly when the first ready task of the ring, counting the
      yielding task itself as ready, is another one.  When the yielding task is picked again the
      source does not mark it running, so nothing runs by the book. */
  lemma SomeoneRunsIff<T>(s: Sched<T>)
    requires WellFormed(s) && OnlyCurrentRuns(s) && s.current.Some?
    ensures (exists t :: t in AfterYield(s).state && AfterYield(s).state[t] == Running)
       <==> Picked(s.(state := s.state[s.current.value := Ready])) != s.current
  {
    var waiting := s.(state := s.state[s.current.value := Ready]);
    var k :| 0 <= k < |s.ring| && s.ring[k] == s.current.value;
    var i := FirstReady(waiting.ring, waiting.state);
    FirstReadyAt(waiting.ring, waiting.state, i);
    assert IsReady(s.ring[k], waiting.state);
    if s.ring[i] != s.current.value {
      assert AfterYield(s).state[s.ring[i]] == Running;
    }
  }

  /** So a task that is alone runs on marked READY after its first yield. */
  lemma RunsOnReady<T>(t: T)
    ensures var s := Sched([t], map[t := Running], Some(t));
            && WellFormed(s) && OnlyCurrentRuns(s) && AfterYield(s).current == Some(t)
            && t in AfterYield(s).state && AfterYield(s).state[t] == Ready
  {
    var s := Sched([t], map[t := Running], Some(t));
    assert FirstReady(s.ring, s.state[t := Ready]) == 0;
  }

  /** The usual situation: the last task of the ring is the current one, being the one picked
      last, and every other task is ready. */
  ghost function TakingTurns<T>(ring: seq<T>): Sched<T>
    requires |ring| >= 2
  {
    var last := ring[|ring| - 1];
    Sched(ring, map t | t in ring :: if t == last then Running else Ready, Some(last))
  }

  lemma TurnYield<T>(ring: seq<T>)
    requires |ring| >= 2 && Distinct(ring)
    ensures AfterYield(TakingTurns(ring)) == TakingTurns(Rotated(ring, 1))
  {
    var s, turned := TakingTurns(ring), Rotated(ring, 1);
    var waiting := s.(state := s.state[s.current.value := Ready]);
    assert ring[0] in ring && waiting.state[ring[0]] == Ready;
    assert FirstReady(ring, waiting.state) == 0;
    RotatedKeepsMembers(ring, 1);
    assert turned[|ring| - 1] == ring[0];
    assert waiting.state[ring[0] := Running] == TakingTurns(turned).state;
    assert AfterPick(waiting) == waiting.(ring := turned);
  }

  lemma RotatedAgain<T>(ring: seq<T>, k: nat)
    requires k < |ring|
    ensures Rotated(Rotated(ring, k), 1) == Rotated(ring, k + 1)
  {
  }

  lemma NextTurn<T>(s: Sched<T>, ring: seq<T>, k: nat)
    requires |ring| >= 2 && Distinct(ring) && AfterYields(s, k) == TakingTurns(ring)
    ensures AfterYields(s, k + 1) == TakingTurns(Rotated(ring, 1))
  {
    TurnYield(ring);
  }

  /** Round robin: after k yields the ring has turned by k places... */
  lemma {:induction false} RoundRobin<T>(ring: seq<T>, k: nat)
    requires |ring| >= 2 && Distinct(ring) && k <= |ring|
    ensures |Rotated(ring, k)| >= 2 && AfterYields(TakingTurns(ring), k) == TakingTurns(Rotated(ring, k))
  {
    if k == 0 {
      assert Rotated(ring, 0) == ring;
    } else {
      RoundRobin(ring, k - 1);
      RotatedKeepsMembers(ring, k - 1);
      NextTurn(TakingTurns(ring), Rotated(ring, k - 1), k - 1);
      RotatedAgain(ring, k - 1);
    }
  }

  /** ...so the k-th yield runs the k-th task of the ring... */
  lemma TurnOf<T>(ring: seq<T>, k: nat)
    requires |ring| >= 2 && Distinct(ring) && 0 < k <= |ring|
    ensures AfterYields(TakingTurns(ring), k).current == Some(ring[k - 1])
  {
    RoundRobin(ring, k);
    assert Rotated(ring, k)[|ring| - 1] == ring[k - 1];
  }

  /** ...and after one yield per task everything is as it was. */
  lemma FullCircle<T>(ring: seq<T>)
    requires |ring| >= 2 && Distinct(ring)
    ensures AfterYields(TakingTurns(ring), |ring|) == TakingTurns(ring)
  {
    RoundRobin(ring, |ring|);
    assert Rotated(ring, |ring|) == ring;
  }

  /** What can happen between two picks of a waiting task: any state change of the others (each
      pick comes with the states it sees) and new tasks. */
  datatype Event<T> = Pick(state: map<T, TaskState>) | Add(task: T)

  function AfterEvent<T(==)>(ring: seq<T>, e: Event<T>): seq<T> {
    match e
    case Pick(state) =>
      var i := FirstReady(ring, state);
      if i < |ring| then Rotated(ring, i + 1) else ring
    case Add(task) => ring + [task]
  }

  /** Whether e picks t. */
  predicate Serves<T(==)>(ring: seq<T>, e: Event<T>, t: T) {
    e.Pick? && FirstReady(ring, e.state) < |ring| && ring[FirstReady(ring, e.state)] == t
  }

  predicate Served<T(==)>(ring: seq<T>, events: seq<Event<T>>, t: T)
    decreases |events|
  {
    events != [] && (Serves(ring, events[0], t) || Served(AfterEvent(ring, events[0]), events[1..], t))
  }

  function Picks<T>(events: seq<Event<T>>): nat {
    if events == [] then 0 else (if events[0].Pick? then 1 else 0) + Picks(events[1..])
  }

  /** Bounded waiting: a task at position p that every pick sees ready is served once there have
      been p + 1 picks, whatever the other tasks do and however many join. */
  lemma {:induction false} BoundedWaiting<T>(ring: seq<T>, events: seq<Event<T>>, t: T, p: nat)
    requires p < |ring| && ring[p] == t
    requires forall e :: e in events && e.Pick? ==> t in e.state && e.state[t] == Ready
    requires Picks(events) > p
    ensures Served(ring, events, t)
    decreases |events|
  {
    var e, rest := events[0], events[1..];
    match e
    case Add(task) =>
      BoundedWaiting(ring + [task], rest, t, p);
    case Pick(state) =>
      assert e in events;
      var i := FirstReady(ring, state);
      FirstReadyAt(ring, state, i);
      assert IsReady(ring[p], state);
      if ring[i] != t {
        assert AfterEvent(ring, e)[p - i - 1] == t;
        BoundedWaiting(AfterEvent(ring, e), rest, t, p - i - 1);
      }
  }

  /** Picks and additions of the scheduler are such events. */
  lemma StepsAreEvents<T>(s: Sched<T>, task: T, state: TaskState)
    ensures AfterPick(s).ring == AfterEvent(s.ring, Pick(s.state))
    ensures AfterAdd(s, task, state).ring == AfterEvent(s.ring, Add(task))
    ensures Picked(s) == Some(task) <==> Serves(s.ring, Pick(s.state), task)
  {
  }

  class Task {
    const pid: nat
    var state: TaskState
    var next: Task?

    constructor (pid: nat)
      ensures this.pid == pid && state == Ready && next == null
    {
      this.pid, state, next := pid, Ready, null;
    }
  }

  /** The next pointers close one circle over the ring. */
  ghost predicate Circle(ring: seq<Task>)
    reads ring`next
  {
    forall i {:trigger ring[i].next} :: 0 <= i < |ring| ==>
      ring[i].next == if i + 1 < |ring| then ring[i + 1] else ring[0]
  }

  ghost function StatesOf(ring: seq<Task>): map<Task, TaskState>
    reads ring`state
  {
    map t | t in ring :: t.state
  }

  lemma CircleRotates(ring: seq<Task>, n: nat)
    requires Circle(ring) && Distinct(ring) && n <= |ring|
    ensures Circle(Rotated(ring, n)) && Distinct(Rotated(ring, n))
    ensures StatesOf(Rotated(ring, n)) == StatesOf(ring)
  {
    RotatedKeepsMembers(ring, n);
    var r := Rotated(ring, n);
    forall i {:trigger r[i].next} | 0 <= i < |r|
      ensures r[i].next == if i + 1 < |r| then r[i + 1] else r[0]
    {
      assert r[i] == ring[if n + i < |ring| then n + i else n + i - |ring|];
    }
  }

  lemma StatesGrow(ring: seq<Task>, task: Task)
    ensures StatesOf(ring + [task]) == StatesOf(ring)[task := task.state]
  {
  }

  class TaskQueue {
    var readyQueue: Task?
    var currentTask: Task?
    ghost var ring: seq<Task>

    constructor ()
      ensures Valid() && View() == Sched([], map[], None)
    {
      readyQueue, currentTask, ring := null, null, [];
    }

    /** The next pointers close one circle over the ring, starting at ready_queue. */
    ghost predicate Valid()
      reads this, ring
    {
      && Distinct(ring)
      && (if ring == [] then readyQueue == null else readyQueue == ring[0])
      && Circle(ring)
      && (currentTask != null ==> currentTask in ring)
    }

    ghost function View(): Sched<Task>
      reads this, ring
    {
      Sched(ring, StatesOf(ring),
            if currentTask == null then None else Some(currentTask as Task))
    }

    lemma ViewIsWellFormed()
      requires Valid()
      ensures WellFormed(View())
    {
    }

    /** scheduler_add_task: last in the rotation. */
    method AddTask(task: Task)
      requires Valid() && task !in ring
      modifies this`readyQueue, this`ring, task`next, ring`next
      ensures Valid() && View() == AfterAdd(old(View()), task, task.state)
      ensures ring == old(ring) + [task] && task.next == readyQueue && unchanged(task`state)
      ensures old(readyQueue) != null ==> readyQueue == old(readyQueue)
    {
      hide StatesOf;
      if readyQueue == null {
        readyQueue := task;
        task.next := task;
      } else {
        var tail := readyQueue;
        ghost var i := 0;
        while tail.next != readyQueue
          invariant i < |ring| && tail == ring[i]
          decreases |ring| - i
        {
          tail := tail.next;
          i := i + 1;
        }
        assert i == |ring| - 1;
        tail.next := task;
        task.next := readyQueue;
      }
      StatesGrow(ring, task);
      ring := ring + [task];
    }

    /** Turns the ring to just after next. */
    method TurnTo(next: Task, ghost i: nat)
      requires Valid() && i < |ring| && next == ring[i]
      modifies this`readyQueue, this`ring
      ensures Valid() && ring == Rotated(old(ring), i + 1) && StatesOf(ring) == old(StatesOf(ring))
    {
      CircleRotates(ring, i + 1);
      RotatedKeepsMembers(ring, i + 1);
      readyQueue := next.next;
      ring := Rotated(ring, i + 1);
    }

    /** scheduler_pick_next: the walk comes to rest on the first ready task, or back on the head
        when a full loop finds none. */
    method PickNext() returns (picked: Task?)
      requires Valid()
      modifies this`readyQueue, this`ring
      ensures Valid() && View() == AfterPick(old(View()))
      ensures Picked(old(View())) == if picked == null then None else Some(picked as Task)
    {
      if readyQueue == null {
        return null;
      }
      var next: Task? := readyQueue;
      ghost var i := 0;
      while next != null && next.state != Ready
        invariant i < |ring| && next == ring[i]
        invariant forall j :: 0 <= j < i ==> ring[j].state != Ready
        decreases |ring| - i
      {
        next := next.next;
        i := i + 1;
        if next == readyQueue {
          break;
        }
      }
      FirstReadyAt(ring, StatesOf(ring), i);
      if next != null && next.state == Ready {
        PickedAt(View(), i);
        TurnTo(next, i);
        return next;
      }
      return null;
    }

    /** The C-level effect of scheduler_switch_to. */
    method SwitchTo(task: Task?)
      requires Valid() && (task != null ==> task in ring)
      modifies this`currentTask, ring`state
      ensures Valid()
      ensures View() == if task == null then old(View()) else AfterSwitch(old(View()), task)
    {
      if task == null {
        return;
      }
      currentTask := task;
      task.state := Running;
    }

    /** scheduler_yield. */
    method Yield()
      requires Valid()
      modifies this`readyQueue, this`ring, this`currentTask, ring`state
      ensures Valid() && View() == AfterYield(old(View())) && WellFormed(View())
    {
      hide Distinct, FirstReady;
      if currentTask != null {
        currentTask.state := Ready;
        ghost var waiting := View();
        assert waiting == old(View()).(state := old(View()).state[currentTask := Ready]);
        var next := PickNext();
        if next != null && next != currentTask {
          SwitchTo(next);
        }
      }
      ViewIsWellFormed();
    }
  }
}
