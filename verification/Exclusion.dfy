/**
 Mutual exclusion, fairness and conservation over every run of the mutex and
 semaphore calls of kernel/task/sync.c.

 A history records what callers see.  A mutex call that had to wait returns when
 its task is current again; `inside` holds the tasks to which a lock call has
 returned and that have not called unlock since.
 */
module Exclusion {
  import opened Common
  import opened Sched
  import opened SchedRuns

  /** inside: hold the lock, as they see it.  pending: still inside mutex_lock.  blocked, handed: in order of time. */
  datatype LockHistory = LockHistory(inside: set<nat>, pending: set<nat>, blocked: seq<nat>, handed: seq<nat>)

  datatype SemHistory = SemHistory(initial: nat, posts: nat, started: nat, granted: nat,
                                   blocked: seq<nat>, woken: seq<nat>)

  datatype Config = Config(s: Sys, locks: seq<LockHistory>, sems: seq<SemHistory>)

  /** What the call itself adds to the history of mutex `m`. */
  function Called(s: Sys, a: Action, m: nat, h: LockHistory): LockHistory
    requires Shape(s) && Enabled(s, a) && m < |s.mutexes|
  {
    if a == Lock(m) then
      if Blocks(s, a) then h.(pending := h.pending + {s.cur}, blocked := h.blocked + [s.cur])
      else h.(inside := h.inside + {s.cur})
    else if a == TryLock(m) && !s.mutexes[m].locked then h.(inside := h.inside + {s.cur})
    else if a == Unlock(m) then
      var h1 := h.(inside := h.inside - {s.cur});
      if s.mutexes[m].locked && s.mutexes[m].owner == s.cur && s.queues[m] != [] then
        h1.(handed := h1.handed + [s.queues[m][0]])
      else h1
    else h
  }

  /** The lock call of the task that is current after the step returns. */
  function Returned(h: LockHistory, cur: nat): LockHistory
  {
    if cur in h.pending then h.(inside := h.inside + {cur}, pending := h.pending - {cur}) else h
  }

  function LockStep(s: Sys, a: Action, m: nat, h: LockHistory): LockHistory
    requires Shape(s) && Enabled(s, a) && m < |s.mutexes|
  {
    Returned(Called(s, a, m, h), Apply(s, a).cur)
  }

  function SemStep(s: Sys, a: Action, k: nat, h: SemHistory): SemHistory
    requires Shape(s) && Enabled(s, a) && k < |s.counts|
  {
    var q := s.queues[|s.mutexes| + k];
    if a == Wait(k) then
      if s.counts[k] > 0 then h.(started := h.started + 1, granted := h.granted + 1)
      else h.(started := h.started + 1, blocked := h.blocked + [s.cur])
    else if a == Post(k) then
      if q != [] then h.(posts := h.posts + 1, granted := h.granted + 1, woken := h.woken + [q[0]])
      else h.(posts := h.posts + 1)
    else h
  }

  ghost predicate Sized(c: Config)
  {
    Shape(c.s) && |c.locks| == |c.s.mutexes| && |c.sems| == |c.s.counts|
  }

  ghost function Step(c: Config, a: Action): Config
    requires Sized(c) && Enabled(c.s, a)
  {
    Config(Apply(c.s, a),
           seq(|c.locks|, m requires 0 <= m < |c.locks| => LockStep(c.s, a, m, c.locks[m])),
           seq(|c.sems|, k requires 0 <= k < |c.sems| => SemStep(c.s, a, k, c.sems[k])))
  }

  // ---------------------------------------------------------------- invariants

  /**
   A free mutex concerns nobody.  A taken one: only the owner is inside, and the
   calls still waiting are those of the queue and, after a hand-over, of the owner.
   The tasks that had to wait are those handed the lock, in order, then the queue.
   */
  ghost predicate LockOk(s: Sys, m: nat, h: LockHistory)
    requires m < |s.mutexes| <= |s.queues|
  {
    var owner := s.mutexes[m].owner;
    && h.blocked == h.handed + s.queues[m]
    && (forall i | i in h.inside :: s.mutexes[m].locked && i == owner)
    && (forall i: nat :: i in h.pending <==>
          s.mutexes[m].locked && (i in s.queues[m] || (i == owner && i !in h.inside)))
    && s.cur !in h.pending
  }

  /** Conservation: nothing posted is lost, nothing is granted twice, and waiters are served in order. */
  ghost predicate SemOk(s: Sys, k: nat, h: SemHistory)
    requires k < |s.counts| && |s.mutexes| + k < |s.queues|
  {
    var q := s.queues[|s.mutexes| + k];
    && h.initial + h.posts == s.counts[k] + h.granted
    && h.started == h.granted + |q|
    && h.blocked == h.woken + q
  }

  ghost predicate ConfigOk(c: Config)
  {
    && Sized(c) && Inv(c.s)
    && (forall m {:trigger c.locks[m]} | 0 <= m < |c.locks| :: LockOk(c.s, m, c.locks[m]))
    && (forall k {:trigger c.sems[k]} | 0 <= k < |c.sems| :: SemOk(c.s, k, c.sems[k]))
  }

  // ---------------------------------------------------------------- one step

  /** Only calls on a mutex change its record and its queue. */
  lemma ObjectFrame(s: Sys, a: Action, m: nat, k: nat)
    requires Shape(s) && Enabled(s, a)
    ensures var u := Apply(s, a); |u.mutexes| == |s.mutexes| && |u.counts| == |s.counts| && |u.queues| == |s.queues|
    ensures m < |s.mutexes| && a != Lock(m) && a != TryLock(m) && a != Unlock(m) ==>
      Apply(s, a).mutexes[m] == s.mutexes[m] && Apply(s, a).queues[m] == s.queues[m]
    ensures k < |s.counts| && a != Wait(k) && a != Post(k) ==>
      Apply(s, a).counts[k] == s.counts[k] && Apply(s, a).queues[|s.mutexes| + k] == s.queues[|s.mutexes| + k]
  {
    if !Blocks(s, a) {
      match a
      case Unlock(n) =>
        assert Release(s, n).queues == s.queues || Release(s, n).queues == s.queues[n := s.queues[n][1..]];
      case Post(j) =>
        var i := |s.mutexes| + j;
        assert Apply(s, a).queues == s.queues || Apply(s, a).queues == s.queues[i := s.queues[i][1..]];
      case _ =>
    }
  }

  /** The task a good step makes current is in no queue. */
  lemma CurrentNotQueued(s: Sys, q: nat)
    requires Inv(s) && q < |s.queues|
    ensures s.cur !in s.queues[q]
  {
    assert QueueOk(s, q);
  }

  /** Returning keeps the lock invariant, because the returning task can only be the owner. */
  lemma ReturnKeeps(s: Sys, m: nat, h: LockHistory)
    requires Inv(s) && m < |s.mutexes|
    requires h.blocked == h.handed + s.queues[m]
    requires forall i | i in h.inside :: s.mutexes[m].locked && i == s.mutexes[m].owner
    requires forall i: nat :: i in h.pending <==>
      s.mutexes[m].locked && (i in s.queues[m] || (i == s.mutexes[m].owner && i !in h.inside))
    ensures LockOk(s, m, Returned(h, s.cur))
  {
    CurrentNotQueued(s, m);
    assert MutexOk(s, m);
  }

  lemma LockStepKeeps(s: Sys, a: Action, m: nat, h: LockHistory)
    requires Inv(s) && Good(s, a) && m < |s.mutexes| && LockOk(s, m, h)
    ensures Inv(Apply(s, a)) && |Apply(s, a).mutexes| == |s.mutexes|
    ensures LockOk(Apply(s, a), m, LockStep(s, a, m, h))
  {
    StepKeeps(s, a);
    ObjectFrame(s, a, m, 0);
    var u := Apply(s, a);
    var h1 := Called(s, a, m, h);
    assert MutexOk(s, m) && QueueOk(s, m);
    if a == Lock(m) {
      if Blocks(s, a) {
        assert u.queues[m] == s.queues[m] + [s.cur] && u.mutexes[m] == s.mutexes[m];
        assert h1.blocked == h1.handed + u.queues[m];
      }
    } else if a == Unlock(m) {
      UnlockHistory(s, m, h);
    }
    ReturnKeeps(u, m, h1);
  }

  lemma UnlockHistory(s: Sys, m: nat, h: LockHistory)
    requires Inv(s) && m < |s.mutexes| && LockOk(s, m, h)
    ensures var u := Release(s, m);
      var h1 := Called(s, Unlock(m), m, h);
      && h1.blocked == h1.handed + u.queues[m]
      && (forall i | i in h1.inside :: u.mutexes[m].locked && i == u.mutexes[m].owner)
      && (forall i: nat :: i in h1.pending <==>
            u.mutexes[m].locked && (i in u.queues[m] || (i == u.mutexes[m].owner && i !in h1.inside)))
  {
    assert MutexOk(s, m) && QueueOk(s, m);
    if s.mutexes[m].locked && s.mutexes[m].owner == s.cur && s.queues[m] != [] {
      var q := s.queues[m];
      assert q == [q[0]] + q[1..];
      assert q[0] !in q[1..];
      assert h.handed + q == (h.handed + [q[0]]) + q[1..];
    }
  }

  lemma SemStepKeeps(s: Sys, a: Action, k: nat, h: SemHistory)
    requires Inv(s) && Good(s, a) && k < |s.counts| && SemOk(s, k, h)
    ensures var u := Apply(s, a); k < |u.counts| && |u.mutexes| + k < |u.queues| && SemOk(u, k, SemStep(s, a, k, h))
  {
    ObjectFrame(s, a, 0, k);
    if a == Wait(k) {
      WaitKeeps(s, k, h);
    } else if a == Post(k) {
      PostKeeps(s, k, h);
    }
  }

  lemma WaitKeeps(s: Sys, k: nat, h: SemHistory)
    requires Inv(s) && k < |s.counts| && SemOk(s, k, h)
    ensures var u := Apply(s, Wait(k));
      k < |u.counts| && |u.mutexes| + k < |u.queues| && SemOk(u, k, SemStep(s, Wait(k), k, h))
  {
    var i := |s.mutexes| + k;
    var q := s.queues[i];
    assert CountOk(s, k);
    if s.counts[k] == 0 {
      assert Apply(s, Wait(k)).queues[i] == q + [s.cur];
      assert h.woken + q + [s.cur] == h.woken + (q + [s.cur]);
    }
  }

  lemma PostKeeps(s: Sys, k: nat, h: SemHistory)
    requires Inv(s) && Enabled(s, Post(k)) && SemOk(s, k, h)
    ensures var u := Apply(s, Post(k));
      k < |u.counts| && |u.mutexes| + k < |u.queues| && SemOk(u, k, SemStep(s, Post(k), k, h))
  {
    var i := |s.mutexes| + k;
    var q := s.queues[i];
    if q != [] {
      assert Apply(s, Post(k)).queues[i] == q[1..];
      assert h.woken + q == (h.woken + [q[0]]) + q[1..];
    }
  }

  lemma ConfigStepKeeps(c: Config, a: Action)
    requires ConfigOk(c) && Good(c.s, a)
    ensures ConfigOk(Step(c, a))
  {
    StepKeeps(c.s, a);
    ObjectFrame(c.s, a, 0, 0);
    var d := Step(c, a);
    forall m | 0 <= m < |d.locks| ensures LockOk(d.s, m, d.locks[m]) {
      assert LockOk(c.s, m, c.locks[m]);
      LockStepKeeps(c.s, a, m, c.locks[m]);
    }
    forall k | 0 <= k < |d.sems| ensures SemOk(d.s, k, d.sems[k]) {
      assert SemOk(c.s, k, c.sems[k]);
      SemStepKeeps(c.s, a, k, c.sems[k]);
    }
  }

  // -------------------------------------------------------------------- runs

  /** Nobody holds or waits, and each semaphore has its initial value. */
  ghost predicate Initial(c: Config)
  {
    && Sized(c) && Inv(c.s)
    && (forall m | 0 <= m < |c.locks| ::
         c.s.mutexes[m] == Mutex(false, NULL) && c.locks[m] == LockHistory({}, {}, [], []))
    && (forall q | 0 <= q < |c.s.queues| :: c.s.queues[q] == [])
    && (forall k | 0 <= k < |c.sems| :: c.sems[k] == SemHistory(c.s.counts[k], 0, 0, 0, [], []))
  }

  /** The configuration after the first switch, with nothing recorded yet. */
  ghost function Started(s: Sys): Config
    requires |s.tasks| > 0
  {
    Config(FirstSwitch(s), seq(|s.mutexes|, m => LockHistory({}, {}, [], [])),
           seq(|s.counts|, k requires 0 <= k < |s.counts| => SemHistory(s.counts[k], 0, 0, 0, [], [])))
  }

  /** A kernel that has created its tasks starts in such a configuration. */
  lemma StartIsInitial(s: Sys)
    requires Unstarted(s) && |s.tasks| > 0
    ensures Initial(Started(s))
  {
    FirstSwitchStarts(s);
  }

  ghost predicate ConfigRun(cs: seq<Config>, acts: seq<Action>)
  {
    && |cs| == |acts| + 1
    && Initial(cs[0])
    && forall i {:trigger acts[i]} | 0 <= i < |acts| ::
         ConfigOk(cs[i]) ==> Good(cs[i].s, acts[i]) && cs[i + 1] == Step(cs[i], acts[i])
  }

  lemma {:induction false} ConfigRunKeeps(cs: seq<Config>, acts: seq<Action>, j: nat)
    requires ConfigRun(cs, acts) && j <= |acts|
    ensures ConfigOk(cs[j])
  {
    if j > 0 {
      ConfigRunKeeps(cs, acts, j - 1);
      assert Good(cs[j - 1].s, acts[j - 1]);
      ConfigStepKeeps(cs[j - 1], acts[j - 1]);
    } else {
      var c := cs[0];
      forall m | 0 <= m < |c.locks| ensures LockOk(c.s, m, c.locks[m]) { }
      forall k | 0 <= k < |c.sems| ensures SemOk(c.s, k, c.sems[k]) { }
    }
  }

  /**
   Mutual exclusion on every run in which a task is ready whenever another one
   blocks or exits: at most one task has been given the lock and not released it,
   that task is the recorded owner, and a free mutex has no owner, holder or waiter.
   */
  lemma MutualExclusion(cs: seq<Config>, acts: seq<Action>, j: nat, m: nat)
    requires ConfigRun(cs, acts) && j <= |acts| && m < |cs[j].locks|
    ensures m < |cs[j].s.mutexes| <= |cs[j].s.queues|
    ensures forall i, i' | i in cs[j].locks[m].inside && i' in cs[j].locks[m].inside :: i == i'
    ensures forall i | i in cs[j].locks[m].inside :: cs[j].s.mutexes[m] == Mutex(true, i)
    ensures !cs[j].s.mutexes[m].locked ==>
      && cs[j].s.mutexes[m].owner == NULL && cs[j].s.queues[m] == []
      && cs[j].locks[m].inside == {} && cs[j].locks[m].pending == {}
  {
    ConfigRunKeeps(cs, acts, j);
    var c := cs[j];
    assert LockOk(c.s, m, c.locks[m]);
    assert MutexOk(c.s, m);
  }

  /** The lock is handed over in the order in which tasks began to wait. */
  lemma FifoHandover(cs: seq<Config>, acts: seq<Action>, j: nat, m: nat)
    requires ConfigRun(cs, acts) && j <= |acts| && m < |cs[j].locks|
    ensures cs[j].locks[m].handed <= cs[j].locks[m].blocked
    ensures m < |cs[j].s.queues| && cs[j].locks[m].blocked[|cs[j].locks[m].handed|..] == cs[j].s.queues[m]
  {
    ConfigRunKeeps(cs, acts, j);
    assert LockOk(cs[j].s, m, cs[j].locks[m]);
  }

  /** No barging: ownership changes only from free to the caller, or from the owner to the head of the queue. */
  lemma NoBarging(s: Sys, a: Action, m: nat)
    requires Inv(s) && Good(s, a) && m < |s.mutexes|
    ensures m < |Apply(s, a).mutexes| && m < |Apply(s, a).queues|
    ensures var x, y := s.mutexes[m], Apply(s, a).mutexes[m];
      var q := s.queues[m];
      x != y ==>
        || (!x.locked && q == [] && y == Mutex(true, s.cur))
        || (x == Mutex(true, s.cur) && a == Unlock(m) && q == [] && y == Mutex(false, NULL))
        || (&& x == Mutex(true, s.cur) && a == Unlock(m) && q != []
            && y == Mutex(true, q[0]) && Apply(s, a).queues[m] == q[1..])
  {
    ObjectFrame(s, a, m, 0);
    assert MutexOk(s, m);
  }

  /**
   Semaphores on every run: what was there and was posted is what is left and was
   granted; waiters are served in order.
   */
  lemma SemaphoreConservation(cs: seq<Config>, acts: seq<Action>, j: nat, k: nat)
    requires ConfigRun(cs, acts) && j <= |acts| && k < |cs[j].sems|
    ensures k < |cs[j].s.counts| && |cs[j].s.mutexes| + k < |cs[j].s.queues|
    ensures var h := cs[j].sems[k];
      var count, q := cs[j].s.counts[k], cs[j].s.queues[|cs[j].s.mutexes| + k];
      && h.initial + h.posts == count + h.granted
      && h.started == h.granted + |q|
      && (count > 0 ==> q == [])
      && h.blocked == h.woken + q
  {
    ConfigRunKeeps(cs, acts, j);
    assert SemOk(cs[j].s, k, cs[j].sems[k]);
    assert CountOk(cs[j].s, k);
  }

  // ------------------------------------------------- why a ready task is needed

  /**
   A lock call on a mutex that another task holds returns at once, without the
   lock, exactly when no task is ready to take over.
   */
  lemma LockFallsThroughIff(c: Config, m: nat)
    requires ConfigOk(c) && m < |c.locks| && c.s.mutexes[m].locked && c.s.mutexes[m].owner != c.s.cur
    ensures c.s.cur in Step(c, Lock(m)).locks[m].inside <==> !HasReady(Enqueue(c.s, m))
  {
    var s := c.s;
    assert LockOk(s, m, c.locks[m]);
    var b := Enqueue(s, m);
    EnqueueKeeps(s, m);
    SwitchKeeps(b);
    FirstReadyIff(b);
    if HasReady(b) {
      var k := FirstReady(WakeAll(b).tasks, b.cur, 1);
      assert WakeAll(b).tasks[b.cur].status == Blocked;
      assert Switch(b).cur != s.cur;
    }
  }

  /** Task 0 runs, task 1 is ready, and mutex 0 is free. */
  function TwoTasks(): Config
  {
    Config(Sys([Task(Running, 10, 0), Task(Ready, 10, 0)], 0, 0, [Mutex(false, NULL)], [], [[]]),
           [LockHistory({}, {}, [], [])], [])
  }

  /** Task 0 has locked mutex 0. */
  function Holding(): Config
  {
    Config(Sys([Task(Running, 10, 0), Task(Ready, 10, 0)], 0, 0, [Mutex(true, 0)], [], [[]]),
           [LockHistory({0}, {}, [], [])], [])
  }

  /** Task 0 sleeps inside mutex 0; task 1 runs. */
  function SleepingHolder(): Config
  {
    Config(Sys([Task(Blocked, 10, 100), Task(Running, 10, 0)], 1, 0, [Mutex(true, 0)], [], [[]]),
           [LockHistory({0}, {}, [], [])], [])
  }

  /**
   Two tasks inside at once, on a run from two tasks and a free mutex: task 0 locks
   and sleeps, and task 1 calls lock with nobody ready.
   */
  lemma ExclusionNeedsReadyTask()
    ensures ConfigRun([TwoTasks(), Holding(), SleepingHolder()], [Lock(0), SleepUntil(100)])
    ensures var c := SleepingHolder();
      Sized(c) && Enabled(c.s, Lock(0)) && !Live(c.s, Lock(0)) && Step(c, Lock(0)).locks[0].inside == {0, 1}
  {
    TwoTasksOk();
    HoldingOk();
    RunOfTwo(TwoTasks(), Lock(0), Holding(), SleepUntil(100), SleepingHolder());
    BothInside();
  }

  lemma RunOfTwo(c0: Config, a0: Action, c1: Config, a1: Action, c2: Config)
    requires Initial(c0) && Good(c0.s, a0) && c1 == Step(c0, a0)
    requires Sized(c1) && Good(c1.s, a1) && c2 == Step(c1, a1)
    ensures ConfigRun([c0, c1, c2], [a0, a1])
  {
    var cs, acts := [c0, c1, c2], [a0, a1];
    forall i | 0 <= i < |acts| ensures Sized(cs[i]) && Good(cs[i].s, acts[i]) && cs[i + 1] == Step(cs[i], acts[i]) {
      if i == 0 { } else { assert i == 1; }
    }
  }

  lemma BothInside()
    ensures var c := SleepingHolder();
      Sized(c) && Enabled(c.s, Lock(0)) && !Live(c.s, Lock(0)) && Step(c, Lock(0)).locks[0].inside == {0, 1}
  {
    SleepingHolderOk();
    var c := SleepingHolder();
    LockFallsThroughIff(c, 0);
    var called := Called(c.s, Lock(0), 0, c.locks[0]);
    assert called == LockHistory({0}, {1}, [1], []);
  }

  lemma TwoTasksOk()
    ensures var c := TwoTasks(); Initial(c) && Good(c.s, Lock(0)) && Step(c, Lock(0)) == Holding()
  {
    var c := TwoTasks();
    assert TaskOk(c.s, 0) && TaskOk(c.s, 1) && QueueOk(c.s, 0) && MutexOk(c.s, 0);
    assert LockStep(c.s, Lock(0), 0, c.locks[0]) == Holding().locks[0];
    assert Step(c, Lock(0)).locks == Holding().locks;
  }

  lemma HoldingOk()
    ensures var c := Holding();
      Sized(c) && Good(c.s, SleepUntil(100)) && Step(c, SleepUntil(100)) == SleepingHolder()
  {
    var c, a := Holding(), SleepUntil(100);
    var b := BeforeSwitch(c.s, a);
    assert Woken(b.tasks[1], 0).status == Ready;
    assert WakeAll(b) == b;
    assert FirstReady(b.tasks, 0, 1) == 1;
    assert Switch(b) == SleepingHolder().s;
    assert LockStep(c.s, a, 0, c.locks[0]) == c.locks[0];
    assert Step(c, a).locks == c.locks;
  }

  lemma SleepingHolderOk()
    ensures var c := SleepingHolder();
      ConfigOk(c) && Enabled(c.s, Lock(0)) && !Live(c.s, Lock(0)) && !HasReady(Enqueue(c.s, 0))
  {
    var c := SleepingHolder();
    var s := c.s;
    assert TaskOk(s, 0) && TaskOk(s, 1) && QueueOk(s, 0) && MutexOk(s, 0);
    assert LockOk(s, 0, c.locks[0]);
    assert !HasReady(Enqueue(s, 0));
  }
}
