/**
 What holds over whole runs of the scheduler: the state invariant, zombies and
 sleepers stay where they are, and every ready task runs within a bounded time.
 */
module SchedRuns {
  import opened Common
  import opened Sched

  /** A run: every action is enabled and leaves a task to run. */
  ghost predicate Run(ss: seq<Sys>, acts: seq<Action>)
  {
    && |ss| == |acts| + 1
    && Inv(ss[0])
    && forall i {:trigger StepAt(ss, acts, i)} | 0 <= i < |acts| :: StepAt(ss, acts, i)
  }

  ghost predicate StepAt(ss: seq<Sys>, acts: seq<Action>, i: nat)
    requires i < |acts| && |ss| == |acts| + 1
  {
    Inv(ss[i]) ==> Good(ss[i], acts[i]) && ss[i + 1] == Apply(ss[i], acts[i])
  }

  ghost predicate Good(s: Sys, a: Action)
    requires Shape(s)
  {
    Enabled(s, a) && Live(s, a)
  }

  lemma {:induction false} RunKeepsInv(ss: seq<Sys>, acts: seq<Action>, j: nat)
    requires Run(ss, acts) && j <= |acts|
    ensures Inv(ss[j])
  {
    if j > 0 {
      RunKeepsInv(ss, acts, j - 1);
      InvNext(ss, acts, j - 1);
    }
  }

  lemma InvNext(ss: seq<Sys>, acts: seq<Action>, i: nat)
    requires Run(ss, acts) && i < |acts| && Inv(ss[i])
    ensures Inv(ss[i + 1])
  {
    assert StepAt(ss, acts, i);
    StepKeeps(ss[i], acts[i]);
  }

  lemma RunStep(ss: seq<Sys>, acts: seq<Action>, j: nat)
    requires Run(ss, acts) && j < |acts|
    ensures Inv(ss[j]) && Inv(ss[j + 1]) && Good(ss[j], acts[j]) && ss[j + 1] == Apply(ss[j], acts[j])
  {
    RunKeepsInv(ss, acts, j);
    RunKeepsInv(ss, acts, j + 1);
    assert StepAt(ss, acts, j);
  }

  // ------------------------------------------------------ zombies and sleepers

  /** How a task that is not current may change: a zombie stays one, and a sleeper stays asleep before its tick. */
  ghost predicate Respects(t: Task, u: Task, now: nat, chosen: bool)
  {
    && (t.status == Zombie ==> u.status == Zombie)
    && (t.status == Blocked && t.wake != 0 && now < t.wake ==> u == t)
    && (t.status == Ready ==> u.status == Ready || chosen)
  }

  lemma SwitchOther(s: Sys, i: nat)
    requires s.cur < |s.tasks| && i < |s.tasks| && i != s.cur
    ensures Respects(s.tasks[i], Switch(s).tasks[i], s.ticks, Switch(s).cur == i)
  {
    var w := WakeAll(s);
    assert w.tasks[i] == Woken(s.tasks[i], s.ticks);
  }

  lemma OthersStep(s: Sys, a: Action, i: nat)
    requires Inv(s) && Enabled(s, a) && i < |s.tasks| && i != s.cur
    ensures var u := Apply(s, a);
      i < |u.tasks| && u.ticks >= s.ticks && Respects(s.tasks[i], u.tasks[i], u.ticks, u.cur == i)
  {
    if Blocks(s, a) {
      SwitchOther(BeforeSwitch(s, a), i);
    } else if a.Tick? {
      SwitchOther(Ticked(s), i);
    } else if a.Yield? {
      SwitchOther(s, i);
    } else if s.tasks[i].status != Blocked || s.tasks[i].wake != 0 {
      match a
      case Unlock(m) => UnblockOther(s, m, i);
      case Post(k) => UnblockOther(s, |s.mutexes| + k, i);
      case _ =>
    } else {
      assert |Apply(s, a).tasks| >= |s.tasks|;
    }
  }

  lemma UnblockOther(s: Sys, q: nat, i: nat)
    requires Inv(s) && q < |s.queues| && i < |s.tasks|
    requires s.tasks[i].status != Blocked || s.tasks[i].wake != 0
    ensures Unblock(s, q).tasks[i] == s.tasks[i]
  {
    assert QueueOk(s, q);
    if s.queues[q] != [] { assert s.queues[q][0] in s.queues[q]; }
  }

  /** A zombie is never scheduled again. */
  lemma {:induction false} ZombieStays(ss: seq<Sys>, acts: seq<Action>, i: nat, j: nat, z: nat)
    requires Run(ss, acts) && i <= j <= |acts|
    requires z < |ss[i].tasks| && ss[i].tasks[z].status == Zombie
    ensures z < |ss[j].tasks| && ss[j].tasks[z].status == Zombie && ss[j].cur != z
    decreases j
  {
    RunKeepsInv(ss, acts, j);
    if i < j {
      ZombieStays(ss, acts, i, j - 1, z);
      RunStep(ss, acts, j - 1);
      OthersStep(ss[j - 1], acts[j - 1], z);
    }
  }

  /** A sleeping task stays asleep in every state of the run before its wake tick. */
  lemma {:induction false} SleeperNotEarly(ss: seq<Sys>, acts: seq<Action>, i: nat, j: nat, z: nat)
    requires Run(ss, acts) && i <= j <= |acts|
    requires z < |ss[i].tasks| && ss[i].tasks[z].status == Blocked && ss[i].tasks[z].wake != 0
    requires ss[j].ticks < ss[i].tasks[z].wake
    ensures z < |ss[j].tasks| && ss[j].tasks[z] == ss[i].tasks[z]
    decreases j
  {
    RunKeepsInv(ss, acts, j);
    if i < j {
      RunStep(ss, acts, j - 1);
      TicksGrow(ss[j - 1], acts[j - 1]);
      SleeperNotEarly(ss, acts, i, j - 1, z);
      OthersStep(ss[j - 1], acts[j - 1], z);
    }
  }

  lemma TicksGrow(s: Sys, a: Action)
    requires Shape(s) && Enabled(s, a)
    ensures s.ticks <= Apply(s, a).ticks
  {
  }

  // ----------------------------------------------------------- bounded waiting

  /** Task `t` is ready and waits; the running task has a proper slice left. */
  ghost predicate Waiting(s: Sys, t: nat)
  {
    && s.cur < |s.tasks| && t < |s.tasks| && t != s.cur
    && s.tasks[t].status == Ready
    && 1 <= s.tasks[s.cur].slice <= DEFAULT_TIME_SLICE
  }

  ghost function RingDistance(s: Sys, t: nat): nat
    requires s.cur < |s.tasks| && t < |s.tasks|
  {
    Dist(|s.tasks|, s.cur, t)
  }

  /** Upper bound on the ticks until `t` runs. */
  ghost function TicksLeft(s: Sys, t: nat): nat
    requires s.cur < |s.tasks| && t < |s.tasks|
  {
    DEFAULT_TIME_SLICE * (RingDistance(s, t) - 1) + s.tasks[s.cur].slice
  }

  /** A switch goes to the first ready task in ring order: to `t`, or to one closer to it. */
  lemma SwitchApproaches(s: Sys, t: nat)
    requires s.cur < |s.tasks| && t < |s.tasks| && t != s.cur && s.tasks[t].status == Ready
    ensures var u := Switch(s);
      u.cur != s.cur && (u.cur != t ==> Waiting(u, t) && u.tasks[u.cur].slice == DEFAULT_TIME_SLICE
                                        && RingDistance(u, t) < RingDistance(s, t))
  {
    var w := WakeAll(s);
    var n := |s.tasks|;
    var k := FirstReady(w.tasks, w.cur, 1);
    var d := Dist(n, s.cur, t);
    assert w.tasks[t] == s.tasks[t];
    assert w.tasks[Ahead(n, s.cur, d)].status == Ready;
    assert k <= d < n;
  }

  /** What a step does for a waiting task: it runs, or it has less to wait. */
  ghost predicate Approaches(s: Sys, u: Sys, t: nat, tick: bool)
    requires Waiting(s, t)
  {
    u.cur == t ||
    (&& Waiting(u, t)
     && TicksLeft(u, t) <= TicksLeft(s, t) - (if tick then 1 else 0)
     && RingDistance(u, t) <= RingDistance(s, t) - (if u.cur != s.cur then 1 else 0))
  }

  lemma SwitchingApproaches(s: Sys, s1: Sys, t: nat, tick: bool)
    requires Waiting(s, t) && s1.cur == s.cur && |s1.tasks| == |s.tasks| && s1.tasks[t] == s.tasks[t]
    ensures Approaches(s, Switch(s1), t, tick)
  {
    SwitchApproaches(s1, t);
  }

  lemma TickApproaches(s: Sys, t: nat)
    requires Shape(s) && Waiting(s, t)
    ensures Approaches(s, TickStep(s), t, true)
  {
    var s1 := Ticked(s);
    assert s1.tasks[t] == s.tasks[t] && s1.tasks[s.cur].slice == s.tasks[s.cur].slice - 1;
    if s.tasks[s.cur].slice == 1 {
      SwitchingApproaches(s, s1, t, true);
    } else {
      assert TickStep(s) == s1;
    }
  }

  lemma WaitingStep(s: Sys, a: Action, t: nat)
    requires Inv(s) && Good(s, a) && !a.Create? && Waiting(s, t)
    ensures Approaches(s, Apply(s, a), t, a.Tick?)
  {
    if Blocks(s, a) {
      SwitchingApproaches(s, BeforeSwitch(s, a), t, false);
    } else {
      match a
      case Tick => TickApproaches(s, t);
      case Yield => SwitchingApproaches(s, s, t, false);
      case Unlock(m) => UnblockOther(s, m, t); UnblockOther(s, m, s.cur);
      case Post(k) => UnblockOther(s, |s.mutexes| + k, t); UnblockOther(s, |s.mutexes| + k, s.cur);
      case _ =>
    }
  }

  ghost function Ticks(acts: seq<Action>, j: nat): nat
    requires j <= |acts|
  {
    if j == 0 then 0 else Ticks(acts, j - 1) + (if acts[j - 1].Tick? then 1 else 0)
  }

  ghost function Switches(ss: seq<Sys>, j: nat): nat
    requires j < |ss|
  {
    if j == 0 then 0 else Switches(ss, j - 1) + (if ss[j].cur != ss[j - 1].cur then 1 else 0)
  }

  /**
   Bounded waiting: in a run that creates no task, a task that is ready at ring
   distance d runs within d switches and within 10 * d timer ticks, whatever the
   other tasks do.
   */
  lemma BoundedWaiting(ss: seq<Sys>, acts: seq<Action>, t: nat)
    requires Run(ss, acts) && Waiting(ss[0], t)
    requires forall i | 0 <= i < |acts| :: !acts[i].Create?
    requires
      || Switches(ss, |acts|) >= RingDistance(ss[0], t)
      || Ticks(acts, |acts|) >= DEFAULT_TIME_SLICE * RingDistance(ss[0], t)
    ensures exists j :: 0 <= j < |ss| && ss[j].cur == t
  {
    if forall j | 0 <= j < |ss| :: ss[j].cur != t {
      StillWaiting(ss, acts, t, |acts|);
    }
  }

  lemma {:induction false} StillWaiting(ss: seq<Sys>, acts: seq<Action>, t: nat, j: nat)
    requires Run(ss, acts) && Waiting(ss[0], t) && j <= |acts|
    requires forall i | 0 <= i < |acts| :: !acts[i].Create?
    requires forall i | 0 <= i < |ss| :: ss[i].cur != t
    ensures Waiting(ss[j], t)
    ensures TicksLeft(ss[j], t) + Ticks(acts, j) <= TicksLeft(ss[0], t)
    ensures RingDistance(ss[j], t) + Switches(ss, j) <= RingDistance(ss[0], t)
  {
    if j > 0 {
      StillWaiting(ss, acts, t, j - 1);
      ApproachesAt(ss, acts, t, j - 1);
    }
  }

  lemma ApproachesAt(ss: seq<Sys>, acts: seq<Action>, t: nat, i: nat)
    requires Run(ss, acts) && i < |acts| && !acts[i].Create? && Waiting(ss[i], t)
    ensures Approaches(ss[i], ss[i + 1], t, acts[i].Tick?)
  {
    RunStep(ss, acts, i);
    WaitingStep(ss[i], acts[i], t);
  }

  /**
   The slice condition is needed: a tick preempts exactly when the slice is 1, and
   a slice that reached 0 with nobody to switch to wraps to 2^32 - 1.
   */
  lemma TickPreemptsIff(s: Sys)
    requires Inv(s) && Enabled(s, Tick)
    ensures HasReady(s.(ticks := s.ticks + 1)) ==> (Apply(s, Tick).cur != s.cur <==> s.tasks[s.cur].slice == 1)
    ensures !HasReady(s.(ticks := s.ticks + 1)) ==> Apply(s, Tick).cur == s.cur
    ensures s.tasks[s.cur].slice == 0 ==> Apply(s, Tick).tasks[s.cur].slice == WORD - 1
  {
    var s1 := Ticked(s);
    FirstReadyIff(s1);
    if HasReady(s1) {
      var k := FirstReady(WakeAll(s1).tasks, s1.cur, 1);
      assert Ahead(|s1.tasks|, s1.cur, k) != s1.cur;
    }
    if HasReady(s.(ticks := s.ticks + 1)) {
      var i :| 0 <= i < |s.tasks| && Woken(s.tasks[i], s.ticks + 1).status == Ready;
      assert i != s.cur;
      assert Woken(s1.tasks[i], s1.ticks).status == Ready;
    }
    if HasReady(s1) {
      var i :| 0 <= i < |s1.tasks| && Woken(s1.tasks[i], s1.ticks).status == Ready;
      assert Woken(s.tasks[i], s.ticks + 1).status == Ready;
    }
  }
}
