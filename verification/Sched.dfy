/**
 The scheduler of kernel/task/task.c, the timer step of kernel/drivers/timer.c and
 the mutexes and semaphores of kernel/task/sync.c as a transition system.

 Task i is the i-th created.  task_create links each new task behind the last one,
 so the ring visits tasks in creation order and wraps around.  Every mutex and
 semaphore call and every tick runs with interrupts off and is one step.  Yielding,
 sleeping, exiting and creating a task do not turn interrupts off; that a tick does
 not fall into the middle of one of them is an assumption of this model.
 */
module Sched {
  import opened Common

  const DEFAULT_TIME_SLICE := 10
  const MAX_TASKS := 256

  datatype Status = Running | Ready | Blocked | Zombie

  datatype Task = Task(status: Status, slice: nat, wake: nat)

  datatype Mutex = Mutex(locked: bool, owner: int)

  /** Wait queues are numbered: first one per mutex, then one per semaphore. */
  datatype Sys = Sys(tasks: seq<Task>, cur: nat, ticks: nat,
                     mutexes: seq<Mutex>, counts: seq<nat>, queues: seq<seq<nat>>)

  ghost predicate Shape(s: Sys)
  {
    && s.cur < |s.tasks|
    && |s.queues| == |s.mutexes| + |s.counts|
  }

  // ---------------------------------------------------------------- switching

  /** The sleeper check of task_switch. */
  function Woken(t: Task, now: nat): Task
  {
    if t.status == Blocked && t.wake != 0 && now >= t.wake then Task(Ready, t.slice, 0) else t
  }

  function WakeAll(s: Sys): (r: Sys)
    ensures |r.tasks| == |s.tasks| && r == s.(tasks := r.tasks)
    ensures forall i | 0 <= i < |s.tasks| :: r.tasks[i] == Woken(s.tasks[i], s.ticks)
  {
    s.(tasks := seq(|s.tasks|, i requires 0 <= i < |s.tasks| => Woken(s.tasks[i], s.ticks)))
  }

  /** The task `k` places after `cur` in the ring of `n`. */
  function Ahead(n: nat, cur: nat, k: nat): (i: nat)
    requires cur < n && 1 <= k <= n
    ensures i < n
  {
    if cur + k < n then cur + k else cur + k - n
  }

  /** How many places after `cur` task `i` comes; `cur` itself comes last. */
  function Dist(n: nat, cur: nat, i: nat): (d: nat)
    requires cur < n && i < n
    ensures 1 <= d <= n && Ahead(n, cur, d) == i
  {
    if i > cur then i - cur else i + n - cur
  }

  /** Smallest k' >= k with a READY task k' places ahead; n + 1 if there is none. */
  function FirstReady(ts: seq<Task>, cur: nat, k: nat): (r: nat)
    requires cur < |ts| && 1 <= k <= |ts| + 1
    ensures k <= r <= |ts| + 1
    ensures r <= |ts| ==> ts[Ahead(|ts|, cur, r)].status == Ready
    ensures forall j | k <= j < r :: ts[Ahead(|ts|, cur, j)].status != Ready
    decreases |ts| + 1 - k
  {
    if k == |ts| + 1 || ts[Ahead(|ts|, cur, k)].status == Ready then k else FirstReady(ts, cur, k + 1)
  }

  /** The second half of task_switch: `next` runs, and the previous task, if still running, is ready. */
  function Dispatch(s: Sys, next: nat): Sys
    requires s.cur < |s.tasks| && next < |s.tasks|
  {
    var ts := s.tasks[next := s.tasks[next].(status := Running, slice := DEFAULT_TIME_SLICE)];
    s.(tasks := if next != s.cur && ts[s.cur].status == Running then ts[s.cur := ts[s.cur].(status := Ready)] else ts,
       cur := next)
  }

  function Switch(s: Sys): (r: Sys)
    requires s.cur < |s.tasks|
    ensures |r.tasks| == |s.tasks| && r.cur < |r.tasks|
    ensures r == s.(tasks := r.tasks, cur := r.cur)
  {
    var w := WakeAll(s);
    var k := FirstReady(w.tasks, w.cur, 1);
    if k > |w.tasks| then w else Dispatch(w, Ahead(|w.tasks|, w.cur, k))
  }

  /** The place just before the last created task, where the first switch starts its search. */
  function BeforeLast(n: nat): (i: nat)
    requires n > 0
    ensures i < n && Ahead(n, i, 1) == n - 1
  {
    if n == 1 then 0 else n - 2
  }

  /** task_switch while there is no current task. */
  function FirstSwitch(s: Sys): Sys
    requires |s.tasks| > 0
  {
    var w := WakeAll(s);
    var n, from := |w.tasks|, BeforeLast(|w.tasks|);
    var k := FirstReady(w.tasks, from, 1);
    if k > n then w
    else
      var next := Ahead(n, from, k);
      w.(tasks := w.tasks[next := w.tasks[next].(status := Running, slice := DEFAULT_TIME_SLICE)], cur := next)
  }

  /** Some task can be switched to. */
  ghost predicate HasReady(s: Sys)
  {
    exists i :: 0 <= i < |s.tasks| && Woken(s.tasks[i], s.ticks).status == Ready
  }

  // ------------------------------------------------------------------ actions

  function SetCur(s: Sys, t: Task): Sys
    requires s.cur < |s.tasks|
  {
    s.(tasks := s.tasks[s.cur := t])
  }

  /** task_block before its switch: the current task goes to the end of a queue. */
  function Enqueue(s: Sys, q: nat): Sys
    requires s.cur < |s.tasks| && q < |s.queues|
  {
    SetCur(s, s.tasks[s.cur].(status := Blocked, wake := 0)).(queues := s.queues[q := s.queues[q] + [s.cur]])
  }

  /** task_wake. */
  function WakeTask(s: Sys, i: nat): Sys
  {
    if i < |s.tasks| && s.tasks[i].status == Blocked then
      s.(tasks := s.tasks[i := Task(Ready, s.tasks[i].slice, 0)])
    else s
  }

  /** task_unblock: the head of the queue leaves it and becomes ready. */
  function Unblock(s: Sys, q: nat): Sys
    requires q < |s.queues|
  {
    if s.queues[q] == [] then s
    else WakeTask(s.(queues := s.queues[q := s.queues[q][1..]]), s.queues[q][0])
  }

  datatype Action =
    | Tick
    | Yield
    | SleepUntil(target: nat)
    | Exit
    | Lock(m: nat)
    | TryLock(m: nat)
    | Unlock(m: nat)
    | Wait(k: nat)
    | Post(k: nat)
    | Create(memory: bool)

  /** Arguments name existing objects; counters do not wrap; a sleep target is not 0. */
  predicate Enabled(s: Sys, a: Action)
  {
    match a
    case Tick => s.ticks + 1 < WORD
    case SleepUntil(target) => 0 < target < WORD
    case Lock(m) => m < |s.mutexes|
    case TryLock(m) => m < |s.mutexes|
    case Unlock(m) => m < |s.mutexes|
    case Wait(k) => k < |s.counts|
    case Post(k) => k < |s.counts| && s.counts[k] + 1 < WORD
    case _ => true
  }

  /** The action takes the current task off the processor. */
  predicate Blocks(s: Sys, a: Action)
    requires Enabled(s, a)
  {
    match a
    case SleepUntil(_) => true
    case Exit => true
    case Lock(m) => s.mutexes[m].locked && s.mutexes[m].owner != s.cur
    case Wait(k) => s.counts[k] == 0
    case _ => false
  }

  /** A blocking action up to its call of task_switch. */
  function BeforeSwitch(s: Sys, a: Action): Sys
    requires Shape(s) && Enabled(s, a) && Blocks(s, a)
  {
    match a
    case SleepUntil(target) => SetCur(s, s.tasks[s.cur].(status := Blocked, wake := target))
    case Exit => SetCur(s, s.tasks[s.cur].(status := Zombie))
    case Lock(m) => Enqueue(s, m)
    case Wait(k) => Enqueue(s, |s.mutexes| + k)
  }

  /** mutex_unlock: the lock passes to the head of the queue, or is released. */
  function Release(s: Sys, m: nat): Sys
    requires m < |s.mutexes| <= |s.queues|
  {
    if !(s.mutexes[m].locked && s.mutexes[m].owner == s.cur) then s
    else if s.queues[m] != [] then
      Unblock(s, m).(mutexes := s.mutexes[m := s.mutexes[m].(owner := s.queues[m][0])])
    else s.(mutexes := s.mutexes[m := Mutex(false, NULL)])
  }

  /** sem_post: a waiter gets the signal, or the count grows. */
  function PostStep(s: Sys, k: nat): Sys
    requires k < |s.counts| && |s.mutexes| + k < |s.queues|
  {
    if s.queues[|s.mutexes| + k] != [] then Unblock(s, |s.mutexes| + k)
    else s.(counts := s.counts[k := s.counts[k] + 1])
  }

  /** timer_handler up to its test of the slice, which is a 32-bit word. */
  function Ticked(s: Sys): (r: Sys)
    requires s.cur < |s.tasks|
    ensures |r.tasks| == |s.tasks| && r.cur == s.cur
  {
    var t := s.tasks[s.cur];
    SetCur(s.(ticks := s.ticks + 1), t.(slice := if t.slice == 0 then WORD - 1 else t.slice - 1))
  }

  function TickStep(s: Sys): Sys
    requires Shape(s)
  {
    if Ticked(s).tasks[s.cur].slice == 0 then Switch(Ticked(s)) else Ticked(s)
  }

  /** task_create; `memory` says whether the task record and its stack page can be had. */
  function Spawn(s: Sys, memory: bool): Sys
  {
    if |s.tasks| >= MAX_TASKS || !memory then s
    else s.(tasks := s.tasks + [Task(Ready, DEFAULT_TIME_SLICE, 0)])
  }

  function Apply(s: Sys, a: Action): Sys
    requires Shape(s) && Enabled(s, a)
  {
    if Blocks(s, a) then Switch(BeforeSwitch(s, a))
    else match a
      case Tick => TickStep(s)
      case Yield => Switch(s)
      case Lock(m) => if s.mutexes[m].locked then s else s.(mutexes := s.mutexes[m := Mutex(true, s.cur)])
      case TryLock(m) => if s.mutexes[m].locked then s else s.(mutexes := s.mutexes[m := Mutex(true, s.cur)])
      case Unlock(m) => Release(s, m)
      case Wait(k) => s.(counts := s.counts[k := s.counts[k] - 1])
      case Post(k) => PostStep(s, k)
      case Create(memory) => Spawn(s, memory)
      case _ => s
  }

  // ---------------------------------------------------------------- invariant

  /** A queue holds tasks that wait for nothing but it, each once. */
  ghost predicate QueueOk(s: Sys, q: nat)
    requires q < |s.queues|
  {
    && Distinct(s.queues[q])
    && (forall i | i in s.queues[q] :: i < |s.tasks| && s.tasks[i].status == Blocked && s.tasks[i].wake == 0)
    && (forall r, i | 0 <= r < |s.queues| && r != q && i in s.queues[q] :: i !in s.queues[r])
  }

  /** Only the current task runs; a blocked task either sleeps or is in a queue, so it can be woken. */
  ghost predicate TaskOk(s: Sys, i: nat)
    requires i < |s.tasks|
  {
    && (s.tasks[i].status == Running ==> i == s.cur)
    && (s.tasks[i].wake != 0 ==> s.tasks[i].status == Blocked)
    && (s.tasks[i].status == Blocked && s.tasks[i].wake == 0 ==> InSomeQueue(s, i))
  }

  ghost predicate InSomeQueue(s: Sys, i: nat)
  {
    exists q :: 0 <= q < |s.queues| && i in s.queues[q]
  }

  ghost predicate MutexOk(s: Sys, m: nat)
    requires m < |s.mutexes| <= |s.queues|
  {
    if s.mutexes[m].locked then 0 <= s.mutexes[m].owner < |s.tasks| && s.mutexes[m].owner !in s.queues[m]
    else s.mutexes[m].owner == NULL && s.queues[m] == []
  }

  ghost predicate CountOk(s: Sys, k: nat)
    requires k < |s.counts| && |s.mutexes| + k < |s.queues|
  {
    s.counts[k] > 0 ==> s.queues[|s.mutexes| + k] == []
  }

  /** Everything but "the current task is RUNNING". */
  ghost predicate Base(s: Sys)
  {
    && Shape(s)
    && (forall i {:trigger TaskOk(s, i)} | 0 <= i < |s.tasks| :: TaskOk(s, i))
    && (forall q {:trigger QueueOk(s, q)} | 0 <= q < |s.queues| :: QueueOk(s, q))
    && (forall m {:trigger MutexOk(s, m)} | 0 <= m < |s.mutexes| :: MutexOk(s, m))
    && (forall k {:trigger CountOk(s, k)} | 0 <= k < |s.counts| :: CountOk(s, k))
  }

  ghost predicate Inv(s: Sys)
  {
    Base(s) && s.tasks[s.cur].status == Running
  }

  /** There is a task to run whenever the current one gives up the processor; the kernel has no idle task. */
  ghost predicate Live(s: Sys, a: Action)
    requires Shape(s) && Enabled(s, a)
  {
    Blocks(s, a) ==> HasReady(BeforeSwitch(s, a))
  }

  // ---------------------------------------------------------------- switching

  /** Queues only look at blocked, non-sleeping tasks; changing others keeps them. */
  lemma TasksChange(s: Sys, u: Sys)
    requires Base(s) && u == s.(tasks := u.tasks, cur := u.cur, ticks := u.ticks)
    requires |s.tasks| <= |u.tasks| && u.cur < |u.tasks|
    requires forall i | 0 <= i < |s.tasks| && s.tasks[i].status == Blocked && s.tasks[i].wake == 0 ::
      u.tasks[i].status == Blocked && u.tasks[i].wake == 0
    requires forall i | 0 <= i < |u.tasks| ::
      && (u.tasks[i].status == Running ==> i == u.cur)
      && (u.tasks[i].wake != 0 ==> u.tasks[i].status == Blocked)
      && (u.tasks[i].status == Blocked && u.tasks[i].wake == 0 ==>
            i < |s.tasks| && s.tasks[i].status == Blocked && s.tasks[i].wake == 0)
    ensures Base(u)
  {
    forall i | 0 <= i < |u.tasks| ensures TaskOk(u, i) {
      if i < |s.tasks| {
        assert TaskOk(s, i);
        if InSomeQueue(s, i) {
          var q :| 0 <= q < |s.queues| && i in s.queues[q];
          assert i in u.queues[q];
        }
      }
    }
    forall q | 0 <= q < |u.queues| ensures QueueOk(u, q) { assert QueueOk(s, q); }
    forall m | 0 <= m < |u.mutexes| ensures MutexOk(u, m) { assert MutexOk(s, m); }
    forall k | 0 <= k < |u.counts| ensures CountOk(u, k) { assert CountOk(s, k); }
  }

  lemma WakeAllKeeps(s: Sys)
    requires Base(s)
    ensures Base(WakeAll(s))
  {
    forall i | 0 <= i < |s.tasks|
      ensures s.tasks[i].status == Running ==> i == s.cur
      ensures s.tasks[i].wake != 0 ==> s.tasks[i].status == Blocked
    {
      assert TaskOk(s, i);
    }
    TasksChange(s, WakeAll(s));
  }

  /**
   Waking makes READY exactly the sleepers whose tick has come, leaves every other
   task as it was, and leaves nobody to wake: a second pass changes nothing.
   */
  lemma WakesTheDue(s: Sys)
    ensures WakeAll(WakeAll(s)) == WakeAll(s)
    ensures forall i | 0 <= i < |s.tasks| && WakeAll(s).tasks[i] != s.tasks[i] ::
      && s.tasks[i].status == Blocked && 0 < s.tasks[i].wake <= s.ticks
      && WakeAll(s).tasks[i] == Task(Ready, s.tasks[i].slice, 0)
    ensures forall i | 0 <= i < |s.tasks| && WakeAll(s).tasks[i].status == Blocked ::
      WakeAll(s).tasks[i].wake == 0 || s.ticks < WakeAll(s).tasks[i].wake
  {
    assert WakeAll(WakeAll(s)).tasks == WakeAll(s).tasks;
  }

  lemma FirstReadyIff(s: Sys)
    requires s.cur < |s.tasks|
    ensures HasReady(s) <==> FirstReady(WakeAll(s).tasks, s.cur, 1) <= |s.tasks|
  {
    var w := WakeAll(s);
    var k := FirstReady(w.tasks, w.cur, 1);
    if HasReady(s) {
      var i :| 0 <= i < |s.tasks| && Woken(s.tasks[i], s.ticks).status == Ready;
      var d := Dist(|s.tasks|, s.cur, i);
      assert w.tasks[Ahead(|s.tasks|, s.cur, d)].status == Ready;
      assert k <= d;
    }
  }

  /** A switch leaves a running current task exactly when some task is ready or the caller still runs. */
  lemma SwitchKeeps(s: Sys)
    requires Base(s)
    ensures Base(Switch(s))
    ensures Inv(Switch(s)) <==> HasReady(s) || s.tasks[s.cur].status == Running
  {
    WakeAllKeeps(s);
    FirstReadyIff(s);
    var w := WakeAll(s);
    var u := Switch(s);
    if HasReady(s) {
      forall i | 0 <= i < |w.tasks|
        ensures w.tasks[i].status == Running ==> i == w.cur
        ensures w.tasks[i].wake != 0 ==> w.tasks[i].status == Blocked
      {
        assert TaskOk(w, i);
      }
      TasksChange(w, u);
    }
  }

  /** Before the first switch: tasks were created and nothing else happened to them, their mutexes or queues. */
  ghost predicate Unstarted(s: Sys)
  {
    && s.cur == |s.tasks| && |s.queues| == |s.mutexes| + |s.counts|
    && (forall i | 0 <= i < |s.tasks| :: s.tasks[i] == Task(Ready, DEFAULT_TIME_SLICE, 0))
    && (forall m | 0 <= m < |s.mutexes| :: s.mutexes[m] == Mutex(false, NULL))
    && (forall q | 0 <= q < |s.queues| :: s.queues[q] == [])
  }

  /** The first switch starts the last created task, and from then on the invariant holds. */
  lemma FirstSwitchStarts(s: Sys)
    requires Unstarted(s) && |s.tasks| > 0
    ensures Inv(FirstSwitch(s)) && FirstSwitch(s).cur == |s.tasks| - 1
  {
    var u := FirstSwitch(s);
    assert WakeAll(s).tasks == s.tasks;
    forall i | 0 <= i < |u.tasks| ensures TaskOk(u, i) { }
    forall q | 0 <= q < |u.queues| ensures QueueOk(u, q) { }
    forall m | 0 <= m < |u.mutexes| ensures MutexOk(u, m) { }
    forall k | 0 <= k < |u.counts| ensures CountOk(u, k) { }
  }

  // -------------------------------------------------------------------- steps

  lemma EnqueueKeeps(s: Sys, q: nat)
    requires Inv(s) && q < |s.queues|
    requires q < |s.mutexes| ==> s.mutexes[q].locked && s.mutexes[q].owner != s.cur
    requires q >= |s.mutexes| ==> s.counts[q - |s.mutexes|] == 0
    ensures Base(Enqueue(s, q))
  {
    var u := Enqueue(s, q);
    forall r | 0 <= r < |s.queues| ensures s.cur !in s.queues[r] { assert QueueOk(s, r); }
    forall i | 0 <= i < |u.tasks| ensures TaskOk(u, i) {
      assert TaskOk(s, i);
      if i == s.cur {
        assert u.queues[q][|s.queues[q]|] == i;
      } else if InSomeQueue(s, i) {
        var r :| 0 <= r < |s.queues| && i in s.queues[r];
        assert i in u.queues[r];
      }
    }
    forall r | 0 <= r < |u.queues| ensures QueueOk(u, r) {
      assert QueueOk(s, r) && QueueOk(s, q);
    }
    forall m | 0 <= m < |u.mutexes| ensures MutexOk(u, m) { assert MutexOk(s, m); }
    forall k | 0 <= k < |u.counts| ensures CountOk(u, k) { assert CountOk(s, k); }
  }

  lemma UnblockKeeps(s: Sys, q: nat)
    requires Inv(s) && q < |s.queues| && s.queues[q] != []
    ensures Inv(Unblock(s, q))
  {
    var u := Unblock(s, q);
    var h := s.queues[q][0];
    assert QueueOk(s, q);
    assert h in s.queues[q];
    assert h != s.cur;
    forall i | 0 <= i < |u.tasks| ensures TaskOk(u, i) {
      assert TaskOk(s, i);
      if i != h && InSomeQueue(s, i) {
        var r :| 0 <= r < |s.queues| && i in s.queues[r];
        assert i in u.queues[r];
      }
    }
    forall r | 0 <= r < |u.queues| ensures QueueOk(u, r) {
      assert QueueOk(s, r);
      assert h !in u.queues[r];
    }
    forall m | 0 <= m < |u.mutexes| ensures MutexOk(u, m) { assert MutexOk(s, m); }
    forall k | 0 <= k < |u.counts| ensures CountOk(u, k) { assert CountOk(s, k); }
  }

  /** Changing mutex records or counts keeps the rest. */
  lemma ObjectsChange(s: Sys, u: Sys)
    requires Inv(s) && u == s.(mutexes := u.mutexes, counts := u.counts)
    requires |u.mutexes| == |s.mutexes| && |u.counts| == |s.counts|
    requires forall m | 0 <= m < |s.mutexes| :: u.mutexes[m] == s.mutexes[m] || MutexOk(u, m)
    requires forall k | 0 <= k < |s.counts| :: u.counts[k] == s.counts[k] || CountOk(u, k)
    ensures Inv(u)
  {
    forall i | 0 <= i < |u.tasks| ensures TaskOk(u, i) {
      assert TaskOk(s, i);
      if InSomeQueue(s, i) {
        var r :| 0 <= r < |s.queues| && i in s.queues[r];
        assert i in u.queues[r];
      }
    }
    forall r | 0 <= r < |u.queues| ensures QueueOk(u, r) { assert QueueOk(s, r); }
    forall m | 0 <= m < |u.mutexes| ensures MutexOk(u, m) { assert MutexOk(s, m); }
    forall k | 0 <= k < |u.counts| ensures CountOk(u, k) { assert CountOk(s, k); }
  }

  lemma CurrentTasksOk(s: Sys)
    requires Base(s)
    ensures forall i | 0 <= i < |s.tasks| ::
      (s.tasks[i].status == Running ==> i == s.cur) && (s.tasks[i].wake != 0 ==> s.tasks[i].status == Blocked)
  {
    forall i | 0 <= i < |s.tasks|
      ensures (s.tasks[i].status == Running ==> i == s.cur) && (s.tasks[i].wake != 0 ==> s.tasks[i].status == Blocked)
    {
      assert TaskOk(s, i);
    }
  }

  lemma BeforeSwitchKeeps(s: Sys, a: Action)
    requires Inv(s) && Enabled(s, a) && Blocks(s, a)
    ensures Base(BeforeSwitch(s, a))
    ensures BeforeSwitch(s, a).tasks[s.cur].status != Running
  {
    CurrentTasksOk(s);
    match a
    case SleepUntil(_) => TasksChange(s, BeforeSwitch(s, a));
    case Exit => TasksChange(s, BeforeSwitch(s, a));
    case Lock(m) => EnqueueKeeps(s, m);
    case Wait(k) => EnqueueKeeps(s, |s.mutexes| + k);
  }

  lemma TickKeeps(s: Sys)
    requires Inv(s)
    ensures Inv(TickStep(s))
  {
    CurrentTasksOk(s);
    TasksChange(s, Ticked(s));
    SwitchKeeps(Ticked(s));
  }

  lemma ReleaseKeeps(s: Sys, m: nat)
    requires Inv(s) && m < |s.mutexes|
    ensures Inv(Release(s, m))
  {
    assert MutexOk(s, m) && QueueOk(s, m);
    var u := Release(s, m);
    if s.mutexes[m].locked && s.mutexes[m].owner == s.cur {
      if s.queues[m] != [] {
        UnblockKeeps(s, m);
        var h := s.queues[m][0];
        assert h in s.queues[m];
        assert h !in s.queues[m][1..];
        ObjectsChange(Unblock(s, m), u);
      } else {
        ObjectsChange(s, u);
      }
    }
  }

  /**
   Every step keeps the scheduler invariant exactly when it leaves something to
   run: a blocking step with no ready task lets the caller go on although it is
   marked BLOCKED or ZOMBIE.
   */
  lemma StepKeeps(s: Sys, a: Action)
    requires Inv(s) && Enabled(s, a)
    ensures Base(Apply(s, a))
    ensures Inv(Apply(s, a)) <==> Live(s, a)
  {
    if Blocks(s, a) {
      BeforeSwitchKeeps(s, a);
      SwitchKeeps(BeforeSwitch(s, a));
    } else {
      NonBlockingKeeps(s, a);
    }
  }

  lemma NonBlockingKeeps(s: Sys, a: Action)
    requires Inv(s) && Enabled(s, a) && !Blocks(s, a)
    ensures Inv(Apply(s, a))
  {
    match a
    case Tick => TickKeeps(s);
    case Yield => SwitchKeeps(s);
    case Unlock(m) => ReleaseKeeps(s, m);
    case Post(k) =>
      if s.queues[|s.mutexes| + k] != [] { UnblockKeeps(s, |s.mutexes| + k); }
      else { ObjectsChange(s, Apply(s, a)); }
    case Wait(k) => assert CountOk(s, k); ObjectsChange(s, Apply(s, a));
    case Lock(m) => assert MutexOk(s, m); ObjectsChange(s, Apply(s, a));
    case TryLock(m) => assert MutexOk(s, m); ObjectsChange(s, Apply(s, a));
    case Create(memory) => CurrentTasksOk(s); TasksChange(s, Apply(s, a));
  }
}
