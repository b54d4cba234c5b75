/**
 The life of a task in kernel/task/task.c, kernel/task/sync.c and
 kernel/drivers/timer.c: what each step makes of every task, told from the task's side.
 */
module Transitions {
  import opened Common
  import opened Sched
  import opened SchedRuns

  /** The action ends in task_switch. */
  predicate CallsSwitch(s: Sys, a: Action)
    requires Shape(s) && Enabled(s, a)
  {
    Blocks(s, a) || a.Yield? || (a.Tick? && s.tasks[s.cur].slice == 1)
  }

  /** The action takes task `i` out of the wait queue it heads. */
  predicate Frees(s: Sys, a: Action, i: nat)
    requires Shape(s) && Enabled(s, a)
  {
    match a
    case Unlock(m) => s.mutexes[m].locked && s.mutexes[m].owner == s.cur && s.queues[m] != [] && s.queues[m][0] == i
    case Post(k) => s.queues[|s.mutexes| + k] != [] && s.queues[|s.mutexes| + k][0] == i
    case _ => false
  }

  function Now(s: Sys, a: Action): nat
  {
    if a.Tick? then s.ticks + 1 else s.ticks
  }

  /** The task sleeps and its tick has come. */
  predicate Due(t: Task, now: nat)
  {
    t.status == Blocked && t.wake != 0 && t.wake <= now
  }

  /** The current task goes to sleep with a tick that is already past. */
  predicate SleepsNot(s: Sys, a: Action)
  {
    a.SleepUntil? && a.target <= s.ticks
  }

  /** The switch may pick task `i`. */
  predicate Candidate(s: Sys, a: Action, i: nat)
    requires i < |s.tasks|
  {
    if i == s.cur then SleepsNot(s, a) else s.tasks[i].status == Ready || Due(s.tasks[i], Now(s, a))
  }

  /** What becomes of the current task when another one is picked. */
  function TakenOff(s: Sys, a: Action): Status
    requires Shape(s) && Enabled(s, a)
  {
    if a.Exit? then Zombie else if Blocks(s, a) && !SleepsNot(s, a) then Blocked else Ready
  }

  function StatusAfter(s: Sys, a: Action, cur: nat, i: nat): Status
    requires Shape(s) && Enabled(s, a) && i < |s.tasks|
  {
    if i == cur then Running
    else if i == s.cur then TakenOff(s, a)
    else if Frees(s, a, i) || (CallsSwitch(s, a) && Due(s.tasks[i], Now(s, a))) then Ready
    else s.tasks[i].status
  }

  /** A full slice for the task a switch picks; a tick costs the current one a unit. */
  function SliceAfter(s: Sys, a: Action, cur: nat, i: nat): nat
    requires Shape(s) && Enabled(s, a) && i < |s.tasks|
  {
    if i == cur && CallsSwitch(s, a) && Candidate(s, a, i) then DEFAULT_TIME_SLICE
    else if i == s.cur && a.Tick? then (if s.tasks[i].slice == 0 then WORD - 1 else s.tasks[i].slice - 1)
    else s.tasks[i].slice
  }

  /** Only a sleeper has a wake-up tick: the one it asked for. */
  function WakeAfter(s: Sys, a: Action, cur: nat, i: nat): nat
    requires Shape(s) && Enabled(s, a) && i < |s.tasks|
  {
    if StatusAfter(s, a, cur, i) != Blocked then 0
    else if i != s.cur then s.tasks[i].wake
    else if a.SleepUntil? then a.target
    else 0
  }

  /** The task that runs next: the nearest candidate in ring order if there is a switch and one to pick. */
  ghost predicate Picks(s: Sys, a: Action, cur: nat)
    requires Shape(s) && Enabled(s, a)
  {
    && cur < |s.tasks|
    && (cur != s.cur ==> CallsSwitch(s, a) && Candidate(s, a, cur))
    && (CallsSwitch(s, a) ==>
          forall i: nat | i < |s.tasks| && Candidate(s, a, i) ::
            Candidate(s, a, cur) && Dist(|s.tasks|, s.cur, cur) <= Dist(|s.tasks|, s.cur, i))
  }

  // ------------------------------------------------------------- the switch

  /** task_switch by itself: who is picked, and what becomes of everyone. */
  lemma SwitchTasks(s: Sys, i: nat)
    requires s.cur < |s.tasks| && i < |s.tasks|
    ensures var u, w := Switch(s), Woken(s.tasks[i], s.ticks);
      && (i != u.cur && i != s.cur ==> u.tasks[i] == w)
      && (i != u.cur && i == s.cur ==> u.tasks[i] == if w.status == Running then w.(status := Ready) else w)
      && (i == u.cur && w.status == Ready ==> u.tasks[i] == w.(status := Running, slice := DEFAULT_TIME_SLICE))
      && (i == u.cur && w.status != Ready ==> i == s.cur && u.tasks[i] == w)
  {
    var w := WakeAll(s);
    var k := FirstReady(w.tasks, w.cur, 1);
    assert w.tasks[i] == Woken(s.tasks[i], s.ticks);
    if k > |w.tasks| {
      NoneReady(w.tasks, w.cur, i);
    }
  }

  lemma NoneReady(ts: seq<Task>, cur: nat, i: nat)
    requires cur < |ts| && i < |ts| && FirstReady(ts, cur, 1) > |ts|
    ensures ts[i].status != Ready
  {
    assert Ahead(|ts|, cur, Dist(|ts|, cur, i)) == i;
  }

  /** task_switch goes to the nearest task that is ready after the sleeper check. */
  lemma SwitchNearest(s: Sys, i: nat)
    requires s.cur < |s.tasks| && i < |s.tasks| && Woken(s.tasks[i], s.ticks).status == Ready
    ensures var u := Switch(s);
      && Woken(s.tasks[u.cur], s.ticks).status == Ready
      && Dist(|s.tasks|, s.cur, u.cur) <= Dist(|s.tasks|, s.cur, i)
  {
    var w := WakeAll(s);
    var n, k, d := |s.tasks|, FirstReady(w.tasks, w.cur, 1), Dist(|s.tasks|, s.cur, i);
    assert w.tasks[i] == Woken(s.tasks[i], s.ticks) && Ahead(n, s.cur, d) == i;
    assert k <= d;
    assert w.tasks[Ahead(n, s.cur, k)] == Woken(s.tasks[Ahead(n, s.cur, k)], s.ticks);
  }

  /** A task taken off the processor: READY if it was RUNNING, else it changes only as the sleeper check says. */
  lemma TakenOffReady(s: Sys)
    requires Base(s)
    ensures var u, t := Switch(s), s.tasks[s.cur];
      && (u.cur != s.cur && t.status == Running ==> u.tasks[s.cur] == t.(status := Ready))
      && (u.cur != s.cur && t.status != Running ==> u.tasks[s.cur] == Woken(t, s.ticks))
      && u.cur < |s.tasks|
      && (u.cur != s.cur ==> u.tasks[u.cur].status == Running && u.tasks[u.cur].slice == DEFAULT_TIME_SLICE)
  {
    SwitchTasks(s, s.cur);
    SwitchTasks(s, Switch(s).cur);
  }

  /** The first switch of all: the newest task, if ready, runs with a full slice, and the others wait as they were. */
  lemma FirstSwitchTasks(s: Sys, i: nat)
    requires |s.tasks| > 0 && i < |s.tasks| && s.tasks[|s.tasks| - 1].status == Ready
    ensures var u, w := FirstSwitch(s), Woken(s.tasks[i], s.ticks);
      && u.cur == |s.tasks| - 1 && |u.tasks| == |s.tasks|
      && u.tasks[i] == if i == u.cur then w.(status := Running, slice := DEFAULT_TIME_SLICE) else w
  {
    var w := WakeAll(s);
    var n := |s.tasks|;
    assert w.tasks[n - 1] == s.tasks[n - 1] && w.tasks[i] == Woken(s.tasks[i], s.ticks);
    assert FirstReady(w.tasks, BeforeLast(n), 1) == 1;
  }

  // ---------------------------------------------------------------- one step

  /** The state in which the action calls task_switch. */
  function AtSwitch(s: Sys, a: Action): Sys
    requires Shape(s) && Enabled(s, a) && CallsSwitch(s, a)
  {
    if Blocks(s, a) then BeforeSwitch(s, a) else if a.Tick? then Ticked(s) else s
  }

  lemma AtSwitchIs(s: Sys, a: Action, i: nat)
    requires Inv(s) && Enabled(s, a) && CallsSwitch(s, a) && i < |s.tasks|
    ensures var v := AtSwitch(s, a);
      && Apply(s, a) == Switch(v) && v.cur == s.cur && |v.tasks| == |s.tasks| && v.ticks == Now(s, a)
      && (i != s.cur ==> v.tasks[i] == s.tasks[i])
      && (Woken(v.tasks[i], v.ticks).status == Ready <==> Candidate(s, a, i))
  {
    assert TaskOk(s, s.cur);
  }

  lemma StepPicks(s: Sys, a: Action)
    requires Inv(s) && Good(s, a)
    ensures Picks(s, a, Apply(s, a).cur)
  {
    var cur := Apply(s, a).cur;
    if CallsSwitch(s, a) {
      var v := AtSwitch(s, a);
      AtSwitchIs(s, a, cur);
      SwitchTasks(v, cur);
      forall i: nat | i < |s.tasks| && Candidate(s, a, i)
        ensures Candidate(s, a, cur) && Dist(|s.tasks|, s.cur, cur) <= Dist(|s.tasks|, s.cur, i)
      {
        AtSwitchIs(s, a, i);
        SwitchNearest(v, i);
      }
    }
  }

  /** The whole record of every task after a step. */
  ghost predicate FollowsLaw(s: Sys, a: Action, u: Sys, i: nat)
    requires Shape(s) && Enabled(s, a) && i < |s.tasks|
  {
    && i < |u.tasks|
    && u.tasks[i] == Task(StatusAfter(s, a, u.cur, i), SliceAfter(s, a, u.cur, i), WakeAfter(s, a, u.cur, i))
  }

  lemma TaskLaw(s: Sys, a: Action, i: nat)
    requires Inv(s) && Good(s, a) && i < |s.tasks|
    ensures FollowsLaw(s, a, Apply(s, a), i)
  {
    assert TaskOk(s, i) && TaskOk(s, s.cur);
    if CallsSwitch(s, a) {
      SwitchingLaw(s, a, i);
    } else {
      StayingLaw(s, a, i);
    }
  }

  lemma SwitchingLaw(s: Sys, a: Action, i: nat)
    requires Inv(s) && Good(s, a) && i < |s.tasks| && CallsSwitch(s, a)
    ensures FollowsLaw(s, a, Apply(s, a), i)
  {
    var v := AtSwitch(s, a);
    AtSwitchIs(s, a, i);
    SwitchTasks(v, i);
    assert TaskOk(s, i) && TaskOk(s, s.cur);
    if Blocks(s, a) { LiveSwitches(s, a); }
  }

  /** A blocking step on a run leaves the caller only for another task, or for itself if it sleeps not. */
  lemma LiveSwitches(s: Sys, a: Action)
    requires Inv(s) && Good(s, a) && Blocks(s, a)
    ensures Apply(s, a).cur == s.cur ==> SleepsNot(s, a)
  {
    var v := BeforeSwitch(s, a);
    var i :| 0 <= i < |v.tasks| && Woken(v.tasks[i], v.ticks).status == Ready;
    SwitchNearest(v, i);
    AtSwitchIs(s, a, s.cur);
  }

  lemma StayingLaw(s: Sys, a: Action, i: nat)
    requires Inv(s) && Good(s, a) && i < |s.tasks| && !CallsSwitch(s, a)
    ensures FollowsLaw(s, a, Apply(s, a), i)
  {
    assert TaskOk(s, i) && TaskOk(s, s.cur);
    match a
    case Unlock(m) => FreesHead(s, m);
    case Post(k) => FreesHead(s, |s.mutexes| + k);
    case _ =>
  }

  lemma FreesHead(s: Sys, q: nat)
    requires Inv(s) && q < |s.queues|
    ensures s.queues[q] != [] ==>
      var i := s.queues[q][0]; i < |s.tasks| && s.tasks[i].status == Blocked && s.tasks[i].wake == 0
  {
    assert QueueOk(s, q);
    if s.queues[q] != [] { assert s.queues[q][0] in s.queues[q]; }
  }

  /** task_create adds a READY task with a full slice exactly when there is room and memory; nothing else adds one. */
  lemma CreationLaw(s: Sys, a: Action)
    requires Inv(s) && Good(s, a)
    ensures var u := Apply(s, a);
      if a.Create? && a.memory && |s.tasks| < MAX_TASKS then
        |u.tasks| == |s.tasks| + 1 && u.tasks[|s.tasks|] == Task(Ready, DEFAULT_TIME_SLICE, 0)
      else |u.tasks| == |s.tasks|
  {
  }

  // -------------------------------------------------------------------- runs

  /** On every run each step does to every task what the law says, and picks as it says. */
  lemma RunLaw(ss: seq<Sys>, acts: seq<Action>, j: nat, i: nat)
    requires Run(ss, acts) && j < |acts| && i < |ss[j].tasks|
    ensures Inv(ss[j]) && Enabled(ss[j], acts[j])
    ensures Picks(ss[j], acts[j], ss[j + 1].cur) && FollowsLaw(ss[j], acts[j], ss[j + 1], i)
  {
    RunStep(ss, acts, j);
    TaskLaw(ss[j], acts[j], i);
    StepPicks(ss[j], acts[j]);
  }

  /** On every run a task dies at a step if and only if it is the current one and exits. */
  lemma DiesIff(ss: seq<Sys>, acts: seq<Action>, j: nat, i: nat)
    requires Run(ss, acts) && j < |acts| && i < |ss[j].tasks|
    ensures i < |ss[j + 1].tasks|
    ensures ss[j].tasks[i].status != Zombie && ss[j + 1].tasks[i].status == Zombie <==> i == ss[j].cur && acts[j].Exit?
  {
    RunLaw(ss, acts, j, i);
    RunStep(ss, acts, j);
    if acts[j].Exit? { LiveSwitches(ss[j], acts[j]); }
  }

  /** On every run a task stops being RUNNING without blocking or exiting only to be READY. */
  lemma PreemptedIsReady(ss: seq<Sys>, acts: seq<Action>, j: nat)
    requires Run(ss, acts) && j < |acts| && ss[j + 1].cur != ss[j].cur
    ensures Inv(ss[j]) && Enabled(ss[j], acts[j]) && ss[j].cur < |ss[j + 1].tasks|
    ensures !Blocks(ss[j], acts[j]) ==> ss[j + 1].tasks[ss[j].cur].status == Ready
    ensures ss[j + 1].cur < |ss[j + 1].tasks| && ss[j + 1].tasks[ss[j + 1].cur].slice == DEFAULT_TIME_SLICE
  {
    RunKeepsInv(ss, acts, j);
    RunStep(ss, acts, j);
    RunLaw(ss, acts, j, ss[j].cur);
    RunLaw(ss, acts, j, ss[j + 1].cur);
  }

  /**
   A task that is preempted comes back: on a run that creates no more tasks it runs
   again within n switches, and within 10 * n ticks, where n is the number of tasks.
   */
  lemma PreemptedRunsAgain(ss: seq<Sys>, acts: seq<Action>, j: nat)
    requires Run(ss, acts) && j < |acts| && ss[j + 1].cur != ss[j].cur
    requires Enabled(ss[j], acts[j]) && !Blocks(ss[j], acts[j])
    requires forall i | j < i < |acts| :: !acts[i].Create?
    requires var n, rest, after := |ss[j + 1].tasks|, ss[j + 1..], acts[j + 1..];
      Switches(rest, |after|) >= n || Ticks(after, |after|) >= DEFAULT_TIME_SLICE * n
    ensures exists k :: j < k < |ss| && ss[k].cur == ss[j].cur
  {
    var t, rest, after := ss[j].cur, ss[j + 1..], acts[j + 1..];
    PreemptedIsReady(ss, acts, j);
    RunSuffix(ss, acts, j + 1);
    assert Waiting(rest[0], t);
    assert RingDistance(rest[0], t) <= |rest[0].tasks|;
    forall i | 0 <= i < |after| ensures !after[i].Create? { assert after[i] == acts[j + 1 + i]; }
    BoundedWaiting(rest, after, t);
    var k :| 0 <= k < |rest| && rest[k].cur == t;
    assert ss[j + 1 + k].cur == t;
  }

  lemma RunSuffix(ss: seq<Sys>, acts: seq<Action>, j: nat)
    requires Run(ss, acts) && j <= |acts|
    ensures Run(ss[j..], acts[j..])
  {
    RunKeepsInv(ss, acts, j);
    var rest, after := ss[j..], acts[j..];
    forall i | 0 <= i < |after| ensures StepAt(rest, after, i) { assert StepAt(ss, acts, j + i); }
  }
}
