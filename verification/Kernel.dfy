/**
 kernel/task/task.c, kernel/task/sync.c and timer_handler in their own form: task
 records linked into a circular list and into wait queues, changed in place.
 Every method is proved to do to the abstract system what its step in Sched says.
 */
module Kernel {
  import opened Common
  import opened Sched

  /** struct task; a task pointer is the task's number, or NULL. */
  datatype Tcb = Tcb(id: nat, status: Status, slice: nat, next: int, nextInQueue: int, wake: nat)

  datatype MutexRec = MutexRec(locked: bool, owner: int, waitQueue: int)

  datatype SemRec = SemRec(count: nat, waitQueue: int)

  /** Following next_in_queue from `p` visits the tasks `q`, in order. */
  ghost predicate WaitChain(ts: seq<Tcb>, p: int, q: seq<nat>)
    decreases |q|
  {
    if q == [] then p == NULL
    else p == q[0] && p < |ts| && WaitChain(ts, ts[p].nextInQueue, q[1..])
  }

  lemma {:induction false} WaitChainFrame(ts: seq<Tcb>, us: seq<Tcb>, p: int, q: seq<nat>)
    requires WaitChain(ts, p, q) && |ts| <= |us|
    requires forall i | i in q && i < |ts| :: us[i].nextInQueue == ts[i].nextInQueue
    ensures WaitChain(us, p, q)
    decreases |q|
  {
    if q != [] { WaitChainFrame(ts, us, ts[p].nextInQueue, q[1..]); }
  }

  lemma {:induction false} WaitChainInRange(ts: seq<Tcb>, p: int, q: seq<nat>)
    requires WaitChain(ts, p, q)
    ensures forall i | i in q :: i < |ts|
    decreases |q|
  {
    if q != [] {
      WaitChainInRange(ts, ts[p].nextInQueue, q[1..]);
      assert q == [q[0]] + q[1..];
    }
  }

  /** Appending: the last task of the queue is made to point to the new one. */
  lemma {:induction false} WaitChainAppend(ts: seq<Tcb>, p: int, q: seq<nat>, x: nat)
    requires WaitChain(ts, p, q) && q != [] && Distinct(q) && x < |ts| && x !in q && ts[x].nextInQueue == NULL
    ensures q[|q| - 1] < |ts|
    ensures WaitChain(ts[q[|q| - 1] := ts[q[|q| - 1]].(nextInQueue := x)], p, q + [x])
    decreases |q|
  {
    var last := q[|q| - 1];
    WaitChainInRange(ts, p, q);
    assert last in q;
    var us := ts[last := ts[last].(nextInQueue := x)];
    assert (q + [x])[1..] == q[1..] + [x];
    if |q| == 1 {
      assert q[1..] + [x] == [x];
      assert [x][1..] == [];
      assert WaitChain(us, x, [x]);
    } else {
      assert Distinct(q[1..]) && q[0] != last;
      WaitChainAppend(ts, ts[p].nextInQueue, q[1..], x);
    }
  }

  function HeadOf(ms: seq<MutexRec>, ss: seq<SemRec>, q: nat): int
    requires q < |ms| + |ss|
  {
    if q < |ms| then ms[q].waitQueue else ss[q - |ms|].waitQueue
  }

  /** The head pointers and queue links spell out the queues `qs`; no task is in two places. */
  ghost predicate Linked(ts: seq<Tcb>, ms: seq<MutexRec>, ss: seq<SemRec>, qs: seq<seq<nat>>)
  {
    && |qs| == |ms| + |ss|
    && (forall q {:trigger qs[q]} | 0 <= q < |qs| :: WaitChain(ts, HeadOf(ms, ss, q), qs[q]) && Distinct(qs[q]))
    && (forall q, r, i | 0 <= q < |qs| && 0 <= r < |qs| && q != r && i in qs[q] :: i !in qs[r])
  }

  ghost predicate Unqueued(qs: seq<seq<nat>>, x: int)
  {
    forall q | 0 <= q < |qs| :: x !in qs[q]
  }

  /** Links of tasks outside all queues, and fields other than links, do not matter. */
  lemma LinkedTasks(ts: seq<Tcb>, us: seq<Tcb>, ms: seq<MutexRec>, ss: seq<SemRec>, qs: seq<seq<nat>>)
    requires Linked(ts, ms, ss, qs) && |ts| <= |us|
    requires forall i | 0 <= i < |ts| :: us[i].nextInQueue == ts[i].nextInQueue || Unqueued(qs, i)
    ensures Linked(us, ms, ss, qs)
  {
    forall q | 0 <= q < |qs| ensures WaitChain(us, HeadOf(ms, ss, q), qs[q]) && Distinct(qs[q]) {
      WaitChainFrame(ts, us, HeadOf(ms, ss, q), qs[q]);
    }
  }

  lemma LinkedHeads(ts: seq<Tcb>, ms: seq<MutexRec>, ss: seq<SemRec>, qs: seq<seq<nat>>,
                    ms2: seq<MutexRec>, ss2: seq<SemRec>)
    requires Linked(ts, ms, ss, qs) && |ms2| == |ms| && |ss2| == |ss|
    requires forall q | 0 <= q < |qs| :: HeadOf(ms2, ss2, q) == HeadOf(ms, ss, q)
    ensures Linked(ts, ms2, ss2, qs)
  {
  }

  /** Joining an empty queue: the head pointer is set. */
  lemma LinkedFirst(ts: seq<Tcb>, ms: seq<MutexRec>, ss: seq<SemRec>, qs: seq<seq<nat>>, q: nat, x: nat,
                    ms2: seq<MutexRec>, ss2: seq<SemRec>)
    requires Linked(ts, ms, ss, qs) && q < |qs| && qs[q] == [] && Unqueued(qs, x)
    requires x < |ts| && ts[x].nextInQueue == NULL
    requires |ms2| == |ms| && |ss2| == |ss|
    requires forall r | 0 <= r < |qs| :: HeadOf(ms2, ss2, r) == if r == q then x else HeadOf(ms, ss, r)
    ensures Linked(ts, ms2, ss2, qs[q := qs[q] + [x]])
  {
    var one := [x];
    assert qs[q] + [x] == one && one[1..] == [];
    assert WaitChain(ts, x, one);
  }

  /** Joining the end of a queue: its last task points to the new one. */
  lemma LinkedLast(ts: seq<Tcb>, ms: seq<MutexRec>, ss: seq<SemRec>, qs: seq<seq<nat>>, q: nat, x: nat, last: nat)
    requires Linked(ts, ms, ss, qs) && q < |qs| && qs[q] != [] && Unqueued(qs, x)
    requires x < |ts| && ts[x].nextInQueue == NULL && last == qs[q][|qs[q]| - 1] && last < |ts|
    ensures Linked(ts[last := ts[last].(nextInQueue := x)], ms, ss, qs[q := qs[q] + [x]])
  {
    var us := ts[last := ts[last].(nextInQueue := x)];
    var qs2 := qs[q := qs[q] + [x]];
    assert last in qs[q];
    forall r | 0 <= r < |qs2| ensures WaitChain(us, HeadOf(ms, ss, r), qs2[r]) && Distinct(qs2[r]) {
      if r == q {
        WaitChainAppend(ts, HeadOf(ms, ss, q), qs[q], x);
      } else {
        WaitChainFrame(ts, us, HeadOf(ms, ss, r), qs[r]);
      }
    }
  }

  /** Leaving from the front of a queue. */
  lemma LinkedPop(ts: seq<Tcb>, us: seq<Tcb>, ms: seq<MutexRec>, ss: seq<SemRec>, qs: seq<seq<nat>>, q: nat,
                  ms2: seq<MutexRec>, ss2: seq<SemRec>)
    requires Linked(ts, ms, ss, qs) && q < |qs| && qs[q] != [] && qs[q][0] < |ts| == |us|
    requires us == ts[qs[q][0] := us[qs[q][0]]]
    requires |ms2| == |ms| && |ss2| == |ss|
    requires forall r | 0 <= r < |qs| ::
      HeadOf(ms2, ss2, r) == if r == q then ts[qs[q][0]].nextInQueue else HeadOf(ms, ss, r)
    ensures Linked(us, ms2, ss2, qs[q := qs[q][1..]])
  {
    var t := qs[q][0];
    var qs2 := qs[q := qs[q][1..]];
    assert t in qs[q];
    forall r | 0 <= r < |qs2| ensures WaitChain(us, HeadOf(ms2, ss2, r), qs2[r]) && Distinct(qs2[r]) {
      assert t !in qs2[r];
      WaitChainFrame(ts, us, HeadOf(ms2, ss2, r), qs2[r]);
    }
    forall r, r', i | 0 <= r < |qs2| && 0 <= r' < |qs2| && r != r' && i in qs2[r] ensures i !in qs2[r'] {
      assert i in qs[r];
      assert forall x | x in qs2[r'] :: x in qs[r'];
    }
  }

  /** The task list is one cycle through all tasks, in order of creation. */
  ghost predicate Ring(ts: seq<Tcb>, taskList: int)
  {
    && taskList == |ts| - 1
    && forall i | 0 <= i < |ts| :: ts[i].next == if i == |ts| - 1 then 0 else i + 1
  }

  ghost function AbsTasks(ts: seq<Tcb>): (r: seq<Task>)
    ensures |r| == |ts|
    ensures forall i | 0 <= i < |ts| :: r[i] == Task(ts[i].status, ts[i].slice, ts[i].wake)
  {
    seq(|ts|, i requires 0 <= i < |ts| => Task(ts[i].status, ts[i].slice, ts[i].wake))
  }

  ghost function AbsMutexes(ms: seq<MutexRec>): (r: seq<Mutex>)
    ensures |r| == |ms|
    ensures forall i | 0 <= i < |ms| :: r[i] == Mutex(ms[i].locked, ms[i].owner)
  {
    seq(|ms|, i requires 0 <= i < |ms| => Mutex(ms[i].locked, ms[i].owner))
  }

  ghost function AbsCounts(ss: seq<SemRec>): (r: seq<nat>)
    ensures |r| == |ss|
    ensures forall i | 0 <= i < |ss| :: r[i] == ss[i].count
  {
    seq(|ss|, i requires 0 <= i < |ss| => ss[i].count)
  }

  class Kernel {
    var tasks: seq<Tcb>
    var taskList: int
    var current: int
    var taskCount: nat
    var nextTaskId: nat
    var ticks: nat
    var mutexes: seq<MutexRec>
    var sems: seq<SemRec>
    ghost var queues: seq<seq<nat>>

    ghost predicate Valid()
      reads this
    {
      && taskCount == |tasks| && Ring(tasks, taskList)
      && (current == NULL || 0 <= current < |tasks|)
      && Linked(tasks, mutexes, sems, queues)
    }

    ghost function Abs(): Sys
      reads this
    {
      Sys(AbsTasks(tasks), if 0 <= current < |tasks| then current else |tasks|, ticks,
          AbsMutexes(mutexes), AbsCounts(sems), queues)
    }

    /** task_init, with the given mutexes and semaphores initialised. */
    constructor (m: nat, counts: seq<nat>)
      ensures Valid() && current == NULL
      ensures Abs() == Sys([], 0, 0, seq(m, i => Mutex(false, NULL)), counts, seq(m + |counts|, i => []))
      ensures Unstarted(Abs())
    {
      tasks, taskList, current, taskCount, nextTaskId, ticks := [], NULL, NULL, 0, 1, 0;
      mutexes := seq(m, i => MutexRec(false, NULL, NULL));
      sems := seq(|counts|, i requires 0 <= i < |counts| => SemRec(counts[i], NULL));
      queues := seq(m + |counts|, i => []);
      new;
      assert AbsTasks(tasks) == [];
    }

    /** task_create; `record` and `stack` say whether the heap has a task record and the frame allocator a page. */
    method TaskCreate(record: bool, stack: bool) returns (t: int)
      requires Valid()
      modifies this
      ensures Valid() && current == old(current)
      ensures Abs() == Spawn(old(Abs()), record && stack).(cur := Abs().cur)
      ensures Unstarted(old(Abs())) && current == NULL ==> Unstarted(Abs())
      ensures t == if old(|tasks|) < MAX_TASKS && record && stack then old(|tasks|) else NULL
      ensures t != NULL ==> tasks[t].id == old(nextTaskId)
      ensures nextTaskId == old(nextTaskId) + if old(|tasks|) < MAX_TASKS && record then 1 else 0
    {
      if taskCount >= MAX_TASKS || !record {
        return NULL;
      }
      var id := nextTaskId;
      nextTaskId := nextTaskId + 1;
      if !stack {
        return NULL;
      }
      t := |tasks|;
      ghost var before := tasks;
      var first := if taskList == NULL then t else tasks[taskList].next;
      var x := Tcb(id, Ready, DEFAULT_TIME_SLICE, first, NULL, 0);
      if taskList == NULL {
        tasks := [x];
      } else {
        tasks := tasks[taskList := tasks[taskList].(next := t)] + [x];
      }
      taskList := t;
      taskCount := taskCount + 1;
      LinkedTasks(before, tasks, mutexes, sems, queues);
      assert AbsTasks(tasks) == AbsTasks(before) + [Task(Ready, DEFAULT_TIME_SLICE, 0)];
    }

    // -------------------------------------------------------------- switching

    /** The loop of task_switch that wakes sleepers, once around the ring. */
    method WakeSleepers()
      requires Valid() && |tasks| > 0
      modifies this`tasks
      ensures Valid() && Abs() == WakeAll(old(Abs()))
      ensures |tasks| == old(|tasks|)
    {
      ghost var before := tasks;
      var n := |tasks|;
      var checking := taskList;
      var k := 0;
      while k == 0 || checking != taskList
        invariant 0 <= k <= n && |tasks| == n
        invariant checking == if k == 0 || k == n then n - 1 else k - 1
        invariant forall i | 0 <= i < n ::
          tasks[i].next == before[i].next && tasks[i].nextInQueue == before[i].nextInQueue
        invariant forall i | 0 <= i < n ::
          var seen := if i == n - 1 then k > 0 else i < k - 1;
          Task(tasks[i].status, tasks[i].slice, tasks[i].wake) ==
            var t := Task(before[i].status, before[i].slice, before[i].wake); if seen then Woken(t, ticks) else t
        decreases n - k
      {
        if tasks[checking].status == Blocked && tasks[checking].wake != 0 {
          if ticks >= tasks[checking].wake {
            tasks := tasks[checking := tasks[checking].(status := Ready, wake := 0)];
          }
        }
        checking := tasks[checking].next;
        k := k + 1;
      }
      assert AbsTasks(tasks) == WakeAll(old(Abs())).tasks;
      LinkedTasks(before, tasks, mutexes, sems, queues);
    }

    /** The round-robin search; the loop looks at one task twice when nobody is ready. */
    method FindReady() returns (next: int)
      requires Valid() && |tasks| > 0
      ensures 0 <= next < |tasks|
      ensures var from := if current == NULL then BeforeLast(|tasks|) else current;
        var k := FirstReady(AbsTasks(tasks), from, 1);
        && (tasks[next].status == Ready <==> k <= |tasks|)
        && (k <= |tasks| ==> next == Ahead(|tasks|, from, k))
    {
      next := if current == NULL then taskList else tasks[current].next;
      var attempts := 0;
      ghost var n, from := |tasks|, if current == NULL then BeforeLast(|tasks|) else current;
      while tasks[next].status != Ready && attempts < taskCount
        invariant 0 <= attempts <= n
        invariant next == Ahead(n, from, if attempts < n then attempts + 1 else 1)
        invariant forall j | 1 <= j <= attempts :: tasks[Ahead(n, from, j)].status != Ready
      {
        next := tasks[next].next;
        attempts := attempts + 1;
      }
    }

    /** The end of task_switch: `next` becomes current. */
    method RunTask(next: nat)
      requires Valid() && next < |tasks|
      modifies this`tasks, this`current
      ensures Valid() && current != NULL
      ensures old(current) != NULL ==> Abs() == Dispatch(old(Abs()), next)
      ensures old(current) == NULL ==>
        var s := old(Abs());
        Abs() == SetCur(s.(cur := next), s.tasks[next].(status := Running, slice := DEFAULT_TIME_SLICE))
    {
      var prev := current;
      ghost var before := tasks;
      ghost var s := Abs();
      current := next;
      tasks := tasks[next := tasks[next].(status := Running, slice := DEFAULT_TIME_SLICE)];
      if prev != current && prev != NULL {
        if tasks[prev].status == Running {
          tasks := tasks[prev := tasks[prev].(status := Ready)];
        }
      }
      assert prev != NULL ==> AbsTasks(tasks) == Dispatch(s, next).tasks;
      assert prev == NULL ==>
        AbsTasks(tasks) == s.tasks[next := s.tasks[next].(status := Running, slice := DEFAULT_TIME_SLICE)];
      LinkedTasks(before, tasks, mutexes, sems, queues);
    }

    method TaskSwitch()
      requires Valid()
      modifies this`tasks, this`current
      ensures Valid() && (old(current) != NULL ==> current != NULL)
      ensures old(|tasks|) == 0 ==> Abs() == old(Abs())
      ensures old(current) != NULL ==> Abs() == Switch(old(Abs()))
      ensures old(current) == NULL && old(|tasks|) > 0 ==> Abs() == FirstSwitch(old(Abs()))
      ensures Unstarted(old(Abs())) && old(|tasks|) > 0 ==> Inv(Abs())
    {
      if taskList == NULL {
        return;
      }
      ghost var s := Abs();
      if Unstarted(s) {
        FirstSwitchStarts(s);
      }
      WakeSleepers();
      var next := FindReady();
      if tasks[next].status != Ready {
        return;
      }
      RunTask(next);
    }

    /** Replaces the record of the current task, links aside. */
    method SetCurrent(x: Tcb)
      requires Valid() && current != NULL
      requires x.next == tasks[current].next && x.nextInQueue == tasks[current].nextInQueue
      modifies this`tasks
      ensures Valid() && Abs() == SetCur(old(Abs()), Task(x.status, x.slice, x.wake))
      ensures tasks == old(tasks)[current := x]
    {
      ghost var before := tasks;
      tasks := tasks[current := x];
      LinkedTasks(before, tasks, mutexes, sems, queues);
      assert AbsTasks(tasks) == AbsTasks(before)[current := Task(x.status, x.slice, x.wake)];
    }

    method TimerHandler()
      requires Valid() && ticks + 1 < WORD
      modifies this`ticks, this`tasks, this`current
      ensures Valid()
      ensures old(current) == NULL ==> Abs() == old(Abs()).(ticks := ticks) && ticks == old(ticks) + 1
      ensures old(current) != NULL ==> Shape(old(Abs())) && Abs() == TickStep(old(Abs()))
    {
      ticks := ticks + 1;
      if current != NULL {
        var s := tasks[current].slice;
        SetCurrent(tasks[current].(slice := if s == 0 then WORD - 1 else s - 1));
        assert Abs() == Ticked(old(Abs()));
        if tasks[current].slice == 0 {
          TaskSwitch();
        }
      }
    }

    method TaskSleepUntil(target: nat)
      requires Valid()
      modifies this`tasks, this`current
      ensures Valid()
      ensures old(current) == NULL ==> unchanged(this)
      ensures old(current) != NULL ==>
        Abs() == Switch(SetCur(old(Abs()), old(Abs()).tasks[old(current)].(status := Blocked, wake := target)))
      ensures old(current) != NULL && 0 < target < WORD ==>
        Shape(old(Abs())) && Abs() == Apply(old(Abs()), SleepUntil(target))
    {
      if current == NULL {
        return;
      }
      SetCurrent(tasks[current].(status := Blocked, wake := target));
      TaskSwitch();
    }

    method TaskExit()
      requires Valid()
      modifies this`tasks, this`current
      ensures Valid()
      ensures old(current) == NULL ==> unchanged(this)
      ensures old(current) != NULL ==> Shape(old(Abs())) && Abs() == Apply(old(Abs()), Exit)
    {
      if current == NULL {
        return;
      }
      SetCurrent(tasks[current].(status := Zombie));
      TaskSwitch();
    }

    // ------------------------------------------------------------ wait queues

    method SetHead(q: nat, p: int)
      requires q < |mutexes| + |sems|
      modifies this`mutexes, this`sems
      ensures |mutexes| == old(|mutexes|) && |sems| == old(|sems|)
      ensures AbsMutexes(mutexes) == old(AbsMutexes(mutexes)) && AbsCounts(sems) == old(AbsCounts(sems))
      ensures forall r | 0 <= r < |mutexes| + |sems| ::
        HeadOf(mutexes, sems, r) == if r == q then p else HeadOf(old(mutexes), old(sems), r)
      ensures forall m | 0 <= m < |mutexes| :: mutexes[m].(waitQueue := 0) == old(mutexes)[m].(waitQueue := 0)
    {
      if q < |mutexes| {
        mutexes := mutexes[q := mutexes[q].(waitQueue := p)];
      } else {
        sems := sems[q - |mutexes| := sems[q - |mutexes|].(waitQueue := p)];
      }
    }

    /** The walk to the end of a wait queue. */
    method LastInQueue(p: int, ghost q: seq<nat>) returns (last: int)
      requires WaitChain(tasks, p, q) && q != []
      ensures last == q[|q| - 1] && last < |tasks|
    {
      last := p;
      ghost var rest := q;
      while tasks[last].nextInQueue != NULL
        invariant rest != [] && WaitChain(tasks, last, rest) && rest[|rest| - 1] == q[|q| - 1]
        decreases |rest|
      {
        rest := rest[1..];
        last := tasks[last].nextInQueue;
      }
      assert rest[1..] == [];
    }

    /** Puts the current task at the end of queue `q`: task_block up to its switch. */
    method JoinQueue(q: nat)
      requires Valid() && current != NULL && q < |queues| && Unqueued(queues, current)
      modifies this`tasks, this`mutexes, this`sems, this`queues
      ensures Valid() && Abs() == Enqueue(old(Abs()), q)
    {
      ghost var s := Abs();
      ghost var before := tasks;
      tasks := tasks[current := tasks[current].(status := Blocked, wake := 0, nextInQueue := NULL)];
      ghost var mid := tasks;
      LinkedTasks(before, mid, mutexes, sems, queues);
      assert WaitChain(mid, HeadOf(mutexes, sems, q), queues[q]);
      var head := HeadOf(mutexes, sems, q);
      if head == NULL {
        SetHead(q, current);
        LinkedFirst(mid, old(mutexes), old(sems), queues, q, current, mutexes, sems);
      } else {
        var last := LastInQueue(head, queues[q]);
        tasks := tasks[last := tasks[last].(nextInQueue := current)];
        LinkedLast(mid, mutexes, sems, queues, q, current, last);
      }
      queues := queues[q := queues[q] + [current]];
      assert AbsTasks(tasks) == Enqueue(s, q).tasks;
    }

    method TaskBlock(q: nat)
      requires Valid() && q < |queues|
      requires current != NULL ==> Unqueued(queues, current)
      modifies this`tasks, this`mutexes, this`sems, this`queues, this`current
      ensures Valid()
      ensures old(current) == NULL ==> unchanged(this)
      ensures old(current) != NULL ==> Abs() == Switch(Enqueue(old(Abs()), q))
    {
      if current == NULL {
        return;
      }
      JoinQueue(q);
      TaskSwitch();
    }

    method TaskUnblock(q: nat)
      requires Valid() && q < |queues|
      modifies this`tasks, this`mutexes, this`sems, this`queues
      ensures Valid() && Abs() == Unblock(old(Abs()), q)
      ensures forall m | 0 <= m < |mutexes| :: mutexes[m].(waitQueue := 0) == old(mutexes)[m].(waitQueue := 0)
    {
      assert WaitChain(tasks, HeadOf(mutexes, sems, q), queues[q]);
      var t := HeadOf(mutexes, sems, q);
      if t == NULL {
        return;
      }
      ghost var s := Abs();
      ghost var before := tasks;
      SetHead(q, tasks[t].nextInQueue);
      var x := tasks[t].(nextInQueue := NULL);
      if x.status == Blocked {
        x := x.(status := Ready, wake := 0);
      }
      tasks := tasks[t := x];
      LinkedPop(before, tasks, old(mutexes), old(sems), queues, q, mutexes, sems);
      queues := queues[q := queues[q][1..]];
      assert AbsTasks(tasks) == Unblock(s, q).tasks;
    }

    // ------------------------------------------------- mutexes and semaphores

    method MutexLock(m: nat)
      requires Valid() && m < |mutexes|
      requires current != NULL ==> Unqueued(queues, current)
      modifies this`tasks, this`mutexes, this`sems, this`queues, this`current
      ensures Valid()
      ensures old(current) == NULL ==> unchanged(this)
      ensures old(current) != NULL ==> Shape(old(Abs())) && Abs() == Apply(old(Abs()), Lock(m))
    {
      if current == NULL {
        return;
      }
      ghost var s := Abs();
      if !mutexes[m].locked {
        SetMutex(m, true, current);
      } else {
        if mutexes[m].owner == current {
          return;
        }
        TaskBlock(m);
      }
    }

    /** Changes a mutex record other than its queue head. */
    method SetMutex(m: nat, locked: bool, owner: int)
      requires Valid() && m < |mutexes|
      modifies this`mutexes
      ensures Valid() && Abs() == old(Abs()).(mutexes := old(Abs()).mutexes[m := Mutex(locked, owner)])
    {
      ghost var before := mutexes;
      mutexes := mutexes[m := mutexes[m].(locked := locked, owner := owner)];
      LinkedHeads(tasks, before, sems, queues, mutexes, sems);
      assert AbsMutexes(mutexes) == AbsMutexes(before)[m := Mutex(locked, owner)];
    }

    method MutexTryLock(m: nat) returns (success: bool)
      requires Valid() && m < |mutexes|
      modifies this`mutexes
      ensures Valid()
      ensures old(current) == NULL ==> unchanged(this) && !success
      ensures old(current) != NULL ==> Shape(old(Abs())) && Abs() == Apply(old(Abs()), TryLock(m))
      ensures old(current) != NULL ==> success == !old(mutexes[m].locked)
    {
      if current == NULL {
        return false;
      }
      ghost var s := Abs();
      success := false;
      if !mutexes[m].locked {
        SetMutex(m, true, current);
        success := true;
      }
    }

    method MutexUnlock(m: nat)
      requires Valid() && m < |mutexes|
      requires mutexes[m].locked ==> 0 <= mutexes[m].owner < |tasks|
      modifies this`tasks, this`mutexes, this`sems, this`queues
      ensures Valid() && Abs() == Release(old(Abs()), m)
    {
      assert WaitChain(tasks, HeadOf(mutexes, sems, m), queues[m]);
      if mutexes[m].locked && mutexes[m].owner == current {
        if mutexes[m].waitQueue != NULL {
          var nextOwner := mutexes[m].waitQueue;
          TaskUnblock(m);
          SetMutex(m, true, nextOwner);
        } else {
          SetMutex(m, false, NULL);
        }
      }
    }

    method SemWait(k: nat)
      requires Valid() && k < |sems|
      requires current != NULL ==> Unqueued(queues, current)
      modifies this`tasks, this`mutexes, this`sems, this`queues, this`current
      ensures Valid()
      ensures old(current) == NULL ==>
        var s, n := old(Abs()), old(sems[k].count);
        Abs() == if n > 0 then s.(counts := s.counts[k := n - 1]) else s
      ensures old(current) != NULL ==> Shape(old(Abs())) && Abs() == Apply(old(Abs()), Wait(k))
    {
      ghost var s := Abs();
      if sems[k].count > 0 {
        SetCount(k, sems[k].count - 1);
      } else {
        TaskBlock(|mutexes| + k);
      }
    }

    method SetCount(k: nat, c: nat)
      requires Valid() && k < |sems|
      modifies this`sems
      ensures Valid() && Abs() == old(Abs()).(counts := old(Abs()).counts[k := c])
    {
      ghost var before := sems;
      sems := sems[k := sems[k].(count := c)];
      LinkedHeads(tasks, mutexes, before, queues, mutexes, sems);
      assert AbsCounts(sems) == AbsCounts(before)[k := c];
    }

    method SemPost(k: nat)
      requires Valid() && k < |sems| && sems[k].count + 1 < WORD
      modifies this`tasks, this`mutexes, this`sems, this`queues
      ensures Valid() && Abs() == PostStep(old(Abs()), k)
    {
      assert WaitChain(tasks, HeadOf(mutexes, sems, |mutexes| + k), queues[|mutexes| + k]);
      if sems[k].waitQueue != NULL {
        TaskUnblock(|mutexes| + k);
      } else {
        SetCount(k, sems[k].count + 1);
      }
    }
  }
}
