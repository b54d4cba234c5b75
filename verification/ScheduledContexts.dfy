/**
 The scheduler's decisions carried out on the machine: task_switch of
 kernel/task/task.c calls task_switch_asm exactly when it picks another task, and
 task_create writes the first frame of the task it adds.  On every run the task the
 scheduler has marked RUNNING is the one whose stack is loaded, and a task that is
 picked again finds the context it was taken off the processor with.
 */
module ScheduledContexts {
  import opened Common
  import S = Sched
  import R = SchedRuns
  import opened ContextSwitch

  /** What the step from `s` to `u` makes of the machine. */
  ghost predicate Induces(s: S.Sys, u: S.Sys, e: Event)
  {
    if u.cur != s.cur then e.Switch? && e.next == u.cur
    else if |u.tasks| > |s.tasks| then e.Create? && e.t == |s.tasks|
    else e.Run?
  }

  /** The current task's stack has room for a call of task_switch_asm. */
  ghost predicate StackRoom(l: Layout, m: System)
  {
    m.cur < |l.base| && l.base[m.cur] + 28 <= m.m.esp <= l.base[m.cur] + PAGE_SIZE
  }

  /** The machine carries out event `e`. */
  ghost predicate CarriesOut(l: Layout, m: System, e: Event, u: System)
    requires SystemOk(l, m)
  {
    match e
    case Run => Runs(l, m, u)
    case Switch(next, ret) => StackRoom(l, m) && next < |l.slot| && u == SwitchTo(l, m, next, ret)
    case Create(t, entry, start) => t < |l.base| && u == Created(l, m, t, entry, start)
  }

  /** The machine has the scheduler's current task loaded, and its tasks are the scheduler's. */
  ghost predicate Matches(s: S.Sys, m: System)
  {
    m.cur == s.cur && forall t: nat :: t in m.live <==> t < |s.tasks|
  }

  /**
   Step `i` of a scheduler run on the machine: the current task runs up to the call, in
   `at`, and the call does what the scheduler decides.
   */
  ghost predicate Performed(l: Layout, s: S.Sys, u: S.Sys, m: System, at: System, e: Event, m2: System)
  {
    SystemOk(l, m) ==> Runs(l, m, at) && Induces(s, u, e) && (SystemOk(l, at) ==> CarriesOut(l, at, e, m2))
  }

  /** A scheduler run and the machine under it; `ats[i]` is the machine when action `i` is called, `es[i]` its event. */
  datatype Drive = Drive(ss: seq<S.Sys>, acts: seq<S.Action>, ms: seq<System>, ats: seq<System>, es: seq<Event>)

  ghost predicate Driven(l: Layout, d: Drive)
  {
    && R.Run(d.ss, d.acts) && |d.ms| == |d.ss| && |d.ats| == |d.es| == |d.acts|
    && LayoutOk(l) && |l.base| == S.MAX_TASKS && |d.ss[0].tasks| <= S.MAX_TASKS
    && SystemOk(l, d.ms[0]) && Matches(d.ss[0], d.ms[0])
    && forall i {:trigger d.es[i]} | 0 <= i < |d.es| ::
         Performed(l, d.ss[i], d.ss[i + 1], d.ms[i], d.ats[i], d.es[i], d.ms[i + 1])
  }

  // ------------------------------------------------------------ one decision

  /** A step adds at most a task, not more than there is room for, and then keeps the current one. */
  lemma StepCounts(s: S.Sys, a: S.Action)
    requires S.Inv(s) && R.Good(s, a) && |s.tasks| <= S.MAX_TASKS
    ensures var u := S.Apply(s, a);
      && |s.tasks| <= |u.tasks| <= |s.tasks| + 1 && |u.tasks| <= S.MAX_TASKS && u.cur < |u.tasks|
      && (|u.tasks| > |s.tasks| ==> u.cur == s.cur)
  {
  }

  lemma PerformedKeeps(l: Layout, s: S.Sys, a: S.Action, m: System, at: System, e: Event, m2: System)
    requires S.Inv(s) && R.Good(s, a) && |s.tasks| <= S.MAX_TASKS == |l.base|
    requires SystemOk(l, m) && Matches(s, m) && Performed(l, s, S.Apply(s, a), m, at, e, m2)
    ensures SystemOk(l, at) && at.cur == m.cur && Follows(l, m, Event.Run, at) && Follows(l, at, e, m2)
    ensures SystemOk(l, m2) && Matches(S.Apply(s, a), m2)
  {
    RunKeeps(l, m, at);
    StepCounts(s, a);
    FollowsKeeps(l, at, e, m2);
  }

  /** Any decision can be carried out, by a task with a free stack. */
  lemma CanPerform(l: Layout, s: S.Sys, a: S.Action, m: System) returns (at: System, e: Event, m2: System)
    requires S.Inv(s) && R.Good(s, a) && |s.tasks| <= S.MAX_TASKS == |l.base|
    requires SystemOk(l, m) && Matches(s, m)
    ensures Performed(l, s, S.Apply(s, a), m, at, e, m2)
  {
    var u := S.Apply(s, a);
    StepCounts(s, a);
    at := m.(m := m.m.(esp := l.base[m.cur] + PAGE_SIZE));
    assert Runs(l, m, at);
    if u.cur != s.cur {
      e, m2 := Switch(u.cur, 0), SwitchTo(l, at, u.cur, 0);
    } else if |u.tasks| > |s.tasks| {
      e, m2 := Create(|s.tasks|, 0, 0), Created(l, at, |s.tasks|, 0, 0);
    } else {
      e, m2 := Event.Run, at;
    }
  }

  // -------------------------------------------------------------------- runs

  /** The first `n` steps of a scheduler run on the machine. */
  lemma {:induction false} DriveSome(l: Layout, ss: seq<S.Sys>, acts: seq<S.Action>, m: System, n: nat)
    returns (d: Drive)
    requires R.Run(ss, acts) && n <= |acts| && LayoutOk(l) && |l.base| == S.MAX_TASKS && |ss[0].tasks| <= S.MAX_TASKS
    requires SystemOk(l, m) && Matches(ss[0], m)
    ensures d.ss == ss[..n + 1] && d.acts == acts[..n] && Driven(l, d) && d.ms[0] == m
  {
    if n == 0 {
      d := Drive(ss[..1], [], [m], [], []);
      RunPrefix(ss, acts, 0);
      assert acts[..0] == [];
    } else {
      var c := DriveSome(l, ss, acts, m, n - 1);
      RunningIsLoaded(l, c, n - 1);
      R.RunStep(ss, acts, n - 1);
      var at, e, m2 := CanPerform(l, ss[n - 1], acts[n - 1], c.ms[n - 1]);
      d := Drive(ss[..n + 1], acts[..n], c.ms + [m2], c.ats + [at], c.es + [e]);
      RunPrefix(ss, acts, n);
      DriveMore(l, c, d);
    }
  }

  lemma RunPrefix(ss: seq<S.Sys>, acts: seq<S.Action>, n: nat)
    requires R.Run(ss, acts) && n <= |acts|
    ensures R.Run(ss[..n + 1], acts[..n])
  {
    var ss2, acts2 := ss[..n + 1], acts[..n];
    forall i | 0 <= i < n ensures R.StepAt(ss2, acts2, i) {
      assert R.StepAt(ss, acts, i);
    }
  }

  lemma DriveMore(l: Layout, c: Drive, d: Drive)
    requires Driven(l, c) && R.Run(d.ss, d.acts) && |d.ms| == |d.ss| == |c.ss| + 1
    requires |d.ats| == |d.es| == |d.acts| == |c.acts| + 1
    requires d.ss[..|c.ss|] == c.ss && d.ms[..|c.ms|] == c.ms && d.ats[..|c.ats|] == c.ats && d.es[..|c.es|] == c.es
    requires var n := |c.acts|; Performed(l, d.ss[n], d.ss[n + 1], d.ms[n], d.ats[n], d.es[n], d.ms[n + 1])
    ensures Driven(l, d)
  {
    assert d.ss[0] == d.ss[..|c.ss|][0] && d.ms[0] == d.ms[..|c.ms|][0];
    forall i | 0 <= i < |d.es| ensures Performed(l, d.ss[i], d.ss[i + 1], d.ms[i], d.ats[i], d.es[i], d.ms[i + 1]) {
      if i < |c.es| {
        assert d.ss[i] == c.ss[i] && d.ss[i + 1] == c.ss[i + 1] && d.ms[i] == c.ms[i] && d.ms[i + 1] == c.ms[i + 1];
        assert d.ats[i] == c.ats[i] && d.es[i] == c.es[i];
      }
    }
  }

  /** Every run of the scheduler can be carried out on the machine. */
  lemma EveryRunIsDriven(l: Layout, ss: seq<S.Sys>, acts: seq<S.Action>, m: System)
    requires R.Run(ss, acts) && LayoutOk(l) && |l.base| == S.MAX_TASKS && |ss[0].tasks| <= S.MAX_TASKS
    requires SystemOk(l, m) && Matches(ss[0], m)
    ensures exists d :: Driven(l, d) && d.ss == ss && d.acts == acts && d.ms[0] == m
  {
    var d := DriveSome(l, ss, acts, m, |acts|);
    assert ss[..|acts| + 1] == ss && acts[..|acts|] == acts;
  }

  /** In every state of a run the machine is sound, and the RUNNING task is the one whose stack is loaded. */
  lemma {:induction false} RunningIsLoaded(l: Layout, d: Drive, j: nat)
    requires Driven(l, d) && j <= |d.acts|
    ensures SystemOk(l, d.ms[j]) && Matches(d.ss[j], d.ms[j]) && |d.ss[j].tasks| <= S.MAX_TASKS
    ensures d.ms[j].cur < |d.ss[j].tasks| && d.ss[j].tasks[d.ms[j].cur].status == S.Running
    ensures forall t | 0 <= t < |d.ss[j].tasks| && d.ss[j].tasks[t].status == S.Running :: t == d.ms[j].cur
  {
    R.RunKeepsInv(d.ss, d.acts, j);
    if j > 0 {
      RunningIsLoaded(l, d, j - 1);
      DrivenStep(l, d, j - 1);
    }
    forall t | 0 <= t < |d.ss[j].tasks| && d.ss[j].tasks[t].status == S.Running ensures t == d.ss[j].cur {
      assert S.TaskOk(d.ss[j], t);
    }
  }

  lemma DrivenStep(l: Layout, d: Drive, i: nat)
    requires Driven(l, d) && i < |d.acts|
    requires SystemOk(l, d.ms[i]) && Matches(d.ss[i], d.ms[i]) && |d.ss[i].tasks| <= S.MAX_TASKS
    ensures SystemOk(l, d.ats[i]) && d.ats[i].cur == d.ms[i].cur && Induces(d.ss[i], d.ss[i + 1], d.es[i])
    ensures Follows(l, d.ms[i], Event.Run, d.ats[i]) && Follows(l, d.ats[i], d.es[i], d.ms[i + 1])
    ensures SystemOk(l, d.ms[i + 1]) && Matches(d.ss[i + 1], d.ms[i + 1]) && |d.ss[i + 1].tasks| <= S.MAX_TASKS
  {
    R.RunStep(d.ss, d.acts, i);
    var e := d.es[i];
    assert Performed(l, d.ss[i], d.ss[i + 1], d.ms[i], d.ats[i], e, d.ms[i + 1]);
    StepCounts(d.ss[i], d.acts[i]);
    PerformedKeeps(l, d.ss[i], d.acts[i], d.ms[i], d.ats[i], e, d.ms[i + 1]);
  }

  /** Step `i` on the machine. */
  lemma StepFollows(l: Layout, d: Drive, i: nat)
    requires Driven(l, d) && i < |d.acts|
    ensures SystemOk(l, d.ms[i]) && Follows(l, d.ms[i], Event.Run, d.ats[i])
    ensures SystemOk(l, d.ats[i]) && Follows(l, d.ats[i], d.es[i], d.ms[i + 1])
  {
    RunningIsLoaded(l, d, i);
    DrivenStep(l, d, i);
  }

  /** Step `i` as the scheduler sees it. */
  lemma StepDecided(l: Layout, d: Drive, i: nat)
    requires Driven(l, d) && i < |d.acts|
    ensures d.ms[i].cur == d.ats[i].cur == d.ss[i].cur && d.ms[i + 1].cur == d.ss[i + 1].cur
    ensures Induces(d.ss[i], d.ss[i + 1], d.es[i])
    ensures |d.ss[i + 1].tasks| > |d.ss[i].tasks| ==> d.es[i].Create?
  {
    RunningIsLoaded(l, d, i);
    DrivenStep(l, d, i);
    R.RunStep(d.ss, d.acts, i);
    StepCounts(d.ss[i], d.acts[i]);
  }

  /** The machine's own history: for every step a run of the current task and then the decision. */
  ghost function States(d: Drive): seq<System>
    requires |d.ms| == |d.ats| + 1
  {
    seq(2 * |d.ats| + 1, k requires 0 <= k <= 2 * |d.ats| => if k % 2 == 0 then d.ms[k / 2] else d.ats[k / 2])
  }

  ghost function Events(es: seq<Event>): seq<Event>
  {
    seq(2 * |es|, k requires 0 <= k < 2 * |es| => if k % 2 == 0 then Event.Run else es[k / 2])
  }

  lemma PlacesOf(d: Drive, i: nat)
    requires |d.ms| == |d.ats| + 1 && |d.ats| == |d.es| && i < |d.es|
    ensures var ts, fs, k := States(d), Events(d.es), 2 * i;
      && ts[k] == d.ms[i] && ts[k + 1] == d.ats[i] && ts[k + 2] == d.ms[i + 1]
      && fs[k] == Event.Run && fs[k + 1] == d.es[i]
  {
    assert (2 * i + 1) / 2 == i && (2 * i + 2) / 2 == i + 1;
  }

  /** Every scheduler run is carried out as a history of context switches. */
  lemma RunIsHistory(l: Layout, d: Drive)
    requires Driven(l, d)
    ensures History(l, States(d), Events(d.es))
  {
    var ts, fs := States(d), Events(d.es);
    forall k | 0 <= k < |fs| && SystemOk(l, ts[k]) ensures Follows(l, ts[k], fs[k], ts[k + 1]) {
      var i := k / 2;
      PlacesOf(d, i);
      StepFollows(l, d, i);
      assert k == 2 * i || k == 2 * i + 1;
    }
  }

  /** The scheduler's current task is not `t` after step `i` and up to step `j`. */
  ghost predicate OffFrom(ss: seq<S.Sys>, t: nat, i: nat, j: nat)
    requires j < |ss|
  {
    forall k | i < k <= j :: ss[k].cur != t
  }

  /** While the scheduler runs other tasks, none of the machine's states has `t` loaded. */
  lemma NotLoaded(l: Layout, d: Drive, t: nat, i: nat, j: nat)
    requires Driven(l, d) && i < j < |d.acts| && OffFrom(d.ss, t, i, j)
    ensures forall k | 2 * i + 1 < k <= 2 * j + 1 :: States(d)[k].cur != t
  {
    forall k | 2 * i + 1 < k <= 2 * j + 1 ensures States(d)[k].cur != t {
      PlacesOf(d, k / 2);
      StepDecided(l, d, k / 2);
      assert k == 2 * (k / 2) || k == 2 * (k / 2) + 1;
    }
  }

  /**
   A task the scheduler takes off the processor at step `i` and picks again at step `j`
   goes on with the registers, stack and return address it had when it was taken off.
   */
  lemma PickedAgain(l: Layout, d: Drive, i: nat, j: nat)
    requires Driven(l, d) && i < j < |d.acts|
    requires var t := d.ss[i].cur; d.ss[i + 1].cur != t && OffFrom(d.ss, t, i, j) && d.ss[j + 1].cur == t
    ensures d.es[i].Switch? && d.ats[i].m.esp >= 12 && d.ats[i].cur == d.ms[j + 1].cur == d.ss[i].cur < |l.base|
    ensures |l.slot| == |l.base| && d.es[i].next < |l.slot|
    ensures Restored(d.ms[j + 1].m, CallerContext(l, d.ats[i], d.es[i].next, d.es[i].ret),
                     l.base[d.ss[i].cur] + PAGE_SIZE)
  {
    RunIsHistory(l, d);
    StepDecided(l, d, i);
    StepDecided(l, d, j);
    PlacesOf(d, i);
    PlacesOf(d, j);
    NotLoaded(l, d, d.ss[i].cur, i, j);
    ContextPreserved(l, States(d), Events(d.es), 2 * i + 1, 2 * j + 1, d.es[i].ret);
  }

  /** A task created at step `i` and first picked at step `j` starts at task_start_asm with its entry on the stack. */
  lemma PickedFirst(l: Layout, d: Drive, i: nat, j: nat)
    requires Driven(l, d) && i < j < |d.acts|
    requires var t := |d.ss[i].tasks|; |d.ss[i + 1].tasks| > t && OffFrom(d.ss, t, i, j) && d.ss[j + 1].cur == t
    ensures d.es[i].Create? && |d.ss[i].tasks| < |l.base| && d.ms[j + 1].cur == |d.ss[i].tasks|
    ensures var m := d.ms[j + 1].m;
      && m.eip == d.es[i].start && Get(m.mem, m.esp) == d.es[i].entry
      && m.esp + 4 == l.base[|d.ss[i].tasks|] + PAGE_SIZE && m.ebx == m.esi == m.edi == m.ebp == 0
  {
    RunIsHistory(l, d);
    StepDecided(l, d, i);
    StepDecided(l, d, j);
    PlacesOf(d, i);
    PlacesOf(d, j);
    NotLoaded(l, d, |d.ss[i].tasks|, i, j);
    NewTaskStarts(l, States(d), Events(d.es), 2 * i + 1, 2 * j + 1);
  }
}
