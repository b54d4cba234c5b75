/**
 kernel/task/context_switch.asm over registers and memory, and what it promises over
 any interleaving of tasks: a task that is switched back to finds its registers,
 its return address and its stack as it left them.
 */
module ContextSwitch {
  import opened Common

  const STACK_REGION := 0xE000_0000

  /** Word-addressed memory; words never written read as 0. */
  type Memory = map<nat, nat>

  function Get(mem: Memory, a: nat): nat
  {
    if a in mem then mem[a] else 0
  }

  /** The registers task_switch_asm touches, and memory. */
  datatype Machine = Machine(eax: nat, ebx: nat, esi: nat, edi: nat, ebp: nat, esp: nat, eip: nat, mem: Memory)

  function Push(m: Machine, x: nat): Machine
    requires m.esp >= 4
  {
    m.(esp := m.esp - 4, mem := m.mem[m.esp - 4 := x])
  }

  /** The four callee-saved registers pushed, edi on top. */
  function SaveFrame(m: Machine): Machine
    requires m.esp >= 16
  {
    Push(Push(Push(Push(m, m.ebp), m.ebx), m.esi), m.edi)
  }

  /** The machine after popping a frame and the return address at `esp`. */
  function LoadedFrom(mem: Memory, esp: nat, eax: nat): Machine
  {
    Machine(eax, Get(mem, esp + 8), Get(mem, esp + 4), Get(mem, esp), Get(mem, esp + 12), esp + 20,
            Get(mem, esp + 16), mem)
  }

  /** The stack pointer is stored through the first argument and loaded from the second. */
  function Swapped(m: Machine): Machine
  {
    var eax := Get(m.mem, m.esp + 20);
    var mem := m.mem[eax := m.esp];
    m.(eax := eax, mem := mem, esp := Get(mem, m.esp + 24))
  }

  /** task_switch_asm from its entry: return address, &old_esp and new_esp are on the stack. */
  function SwitchAsm(m: Machine): Machine
    requires m.esp >= 16
  {
    var w := Swapped(SaveFrame(m));
    LoadedFrom(w.mem, w.esp, w.eax)
  }

  /** The processor executing task_switch_asm, instruction by instruction. */
  class Cpu {
    var eax: nat
    var ebx: nat
    var esi: nat
    var edi: nat
    var ebp: nat
    var esp: nat
    var eip: nat
    var mem: Memory

    ghost function State(): Machine
      reads this
    {
      Machine(eax, ebx, esi, edi, ebp, esp, eip, mem)
    }

    method PushWord(x: nat)
      requires esp >= 4
      modifies this`esp, this`mem
      ensures esp == old(esp) - 4 && mem == old(mem)[old(esp) - 4 := x]
    {
      esp := esp - 4;
      mem := mem[esp := x];
    }

    method PopWord() returns (x: nat)
      modifies this`esp
      ensures x == Get(mem, old(esp)) && esp == old(esp) + 4
    {
      x := Get(mem, esp);
      esp := esp + 4;
    }

    method PushRegisters()
      requires esp >= 16
      modifies this`esp, this`mem
      ensures State() == SaveFrame(old(State()))
    {
      PushWord(ebp);
      PushWord(ebx);
      PushWord(esi);
      PushWord(edi);
    }

    method PopFrame()
      modifies this`esp, this`edi, this`esi, this`ebx, this`ebp, this`eip
      ensures State() == LoadedFrom(mem, old(esp), eax)
    {
      edi := PopWord();
      esi := PopWord();
      ebx := PopWord();
      ebp := PopWord();
      eip := PopWord();
    }

    method SwapStacks()
      modifies this`eax, this`mem, this`esp
      ensures State() == Swapped(old(State()))
    {
      eax := Get(mem, esp + 20);
      mem := mem[eax := esp];
      esp := Get(mem, esp + 24);
    }

    method TaskSwitchAsm()
      requires esp >= 16
      modifies this
      ensures State() == SwitchAsm(old(State()))
    {
      PushRegisters();
      SwapStacks();
      PopFrame();
    }
  }

  // -------------------------------------------------------------- stack pages

  /** create_kernel_stack's page for an id, in 32-bit arithmetic; the counter it reads is already one past the id. */
  function StackBase(id: nat): nat
  {
    (STACK_REGION + (id + 1) * PAGE_SIZE) % WORD
  }

  /** Two tasks share a stack page exactly when their ids agree modulo 2^20. */
  lemma StackPagesShared(a: nat, b: nat)
    ensures StackBase(a) == StackBase(b) <==> a % 0x10_0000 == b % 0x10_0000
    ensures StackBase(a) != StackBase(b) ==>
      StackBase(a) + PAGE_SIZE <= StackBase(b) || StackBase(b) + PAGE_SIZE <= StackBase(a)
  {
    BaseOf(a);
    BaseOf(b);
    var x, y := (0xE_0001 + a) % 0x10_0000, (0xE_0001 + b) % 0x10_0000;
    assert x == y <==> a % 0x10_0000 == b % 0x10_0000;
  }

  lemma BaseOf(a: nat)
    ensures StackBase(a) == (0xE_0001 + a) % 0x10_0000 * PAGE_SIZE
  {
    var n := 0xE_0001 + a;
    assert STACK_REGION + (a + 1) * PAGE_SIZE == n * PAGE_SIZE;
    PageModulo(n);
  }

  /** Page addresses wrap as page numbers do. */
  lemma PageModulo(n: nat)
    ensures n * PAGE_SIZE % WORD == n % 0x10_0000 * PAGE_SIZE
  {
    var q, r := n / 0x10_0000, n % 0x10_0000;
    assert n == q * 0x10_0000 + r;
    assert n * PAGE_SIZE == q * WORD + r * PAGE_SIZE;
    assert 0 <= r * PAGE_SIZE < WORD;
  }

  // ------------------------------------------------------------------- system

  /** Where tasks live: stack page and the address of the esp field of each task record. */
  datatype Layout = Layout(base: seq<nat>, slot: seq<nat>)

  ghost predicate InStack(l: Layout, t: nat, a: nat)
    requires t < |l.base|
  {
    l.base[t] <= a < l.base[t] + PAGE_SIZE
  }

  ghost predicate Apart(l: Layout, t: nat, u: nat)
    requires t < |l.base| == |l.slot| && u < |l.base|
  {
    (l.base[t] + PAGE_SIZE <= l.base[u] || l.base[u] + PAGE_SIZE <= l.base[t]) && l.slot[t] != l.slot[u]
  }

  /** Stack pages are apart, and task records are in no stack page. */
  ghost predicate LayoutOk(l: Layout)
  {
    && |l.base| == |l.slot|
    && (forall t, u {:trigger Apart(l, t, u)} | 0 <= t < |l.base| && 0 <= u < |l.base| && t != u :: Apart(l, t, u))
    && (forall t, u {:trigger InStack(l, t, l.slot[u])} | 0 <= t < |l.base| && 0 <= u < |l.base| ::
         !InStack(l, t, l.slot[u]))
  }

  /** The kernel's own layout: a page per id in the stack region, task records on the heap below it. */
  lemma KernelLayoutOk(ids: seq<nat>, slots: seq<nat>)
    requires |ids| == |slots|
    requires forall t | 0 <= t < |ids| :: ids[t] < 0x1_FFFE && slots[t] < STACK_REGION
    requires forall t, u | 0 <= t < u < |ids| :: ids[t] != ids[u] && slots[t] != slots[u]
    ensures LayoutOk(Layout(seq(|ids|, t requires 0 <= t < |ids| => StackBase(ids[t])), slots))
  {
    var l := Layout(seq(|ids|, t requires 0 <= t < |ids| => StackBase(ids[t])), slots);
    forall t | 0 <= t < |ids| ensures l.base[t] == STACK_REGION + (ids[t] + 1) * PAGE_SIZE {
      assert STACK_REGION + (ids[t] + 1) * PAGE_SIZE < WORD;
    }
    forall t, u | 0 <= t < |ids| && 0 <= u < |ids| && t != u ensures Apart(l, t, u) {
      assert ids[t] != ids[u];
    }
  }

  /** What a suspended task must find again: registers, return address, stack pointer and the stack above it. */
  datatype Context = Context(ebx: nat, esi: nat, edi: nat, ebp: nat, esp: nat, eip: nat, stack: Memory)

  /** The machine, the current task, the tasks created so far and the contexts they were suspended with. */
  datatype System = System(m: Machine, cur: nat, live: set<nat>, saved: seq<Context>)

  /** Task `t` is suspended with context `c`: its frame is on its own stack. */
  ghost predicate Suspended(l: Layout, mem: Memory, t: nat, c: Context)
    requires t < |l.base| && t < |l.slot|
  {
    var esp := Get(mem, l.slot[t]);
    && l.base[t] <= esp && esp + 20 == c.esp && c.esp <= l.base[t] + PAGE_SIZE
    && Get(mem, esp) == c.edi && Get(mem, esp + 4) == c.esi && Get(mem, esp + 8) == c.ebx
    && Get(mem, esp + 12) == c.ebp && Get(mem, esp + 16) == c.eip
    && (forall a | c.esp <= a < l.base[t] + PAGE_SIZE :: Get(mem, a) == Get(c.stack, a))
  }

  /** Two memories agree on all that belongs to suspended task `t`. */
  ghost predicate SameFor(l: Layout, mem: Memory, mem2: Memory, t: nat)
    requires t < |l.base| && t < |l.slot|
  {
    && Get(mem2, l.slot[t]) == Get(mem, l.slot[t])
    && (forall a {:trigger Get(mem2, a)} | l.base[t] <= a < l.base[t] + PAGE_SIZE :: Get(mem2, a) == Get(mem, a))
  }

  lemma StaysSuspended(l: Layout, mem: Memory, mem2: Memory, t: nat, c: Context)
    requires t < |l.base| && t < |l.slot| && Suspended(l, mem, t, c) && SameFor(l, mem, mem2, t)
    ensures Suspended(l, mem2, t, c)
  {
  }

  ghost predicate SystemOk(l: Layout, s: System)
  {
    && LayoutOk(l) && |s.saved| == |l.base|
    && s.cur in s.live && (forall t | t in s.live :: t < |l.base|)
    && (forall t {:trigger s.saved[t]} | t in s.live && t != s.cur :: Suspended(l, s.m.mem, t, s.saved[t]))
  }

  /** The current task runs: it may change anything but the other tasks' stacks and the esp fields of their records. */
  ghost predicate Runs(l: Layout, s: System, u: System)
    requires s.cur < |l.base| == |l.slot|
  {
    && u.cur == s.cur && u.live == s.live && u.saved == s.saved
    && (forall t {:trigger SameFor(l, s.m.mem, u.m.mem, t)} | t in s.live && t < |l.base| && t != s.cur ::
          SameFor(l, s.m.mem, u.m.mem, t))
  }

  /** task_switch calls task_switch_asm(&prev->esp, next->esp) and is to go on at `ret`. */
  function CallMachine(l: Layout, s: System, next: nat, ret: nat): Machine
    requires s.m.esp >= 12 && s.cur < |l.slot| && next < |l.slot|
  {
    Push(Push(Push(s.m, Get(s.m.mem, l.slot[next])), l.slot[s.cur]), ret)
  }

  /** What the caller expects to find when it is switched back to. */
  function CallerContext(l: Layout, s: System, next: nat, ret: nat): Context
    requires s.m.esp >= 12 && s.cur < |l.slot| && next < |l.slot|
  {
    Context(s.m.ebx, s.m.esi, s.m.edi, s.m.ebp, s.m.esp - 8, ret, CallMachine(l, s, next, ret).mem)
  }

  /** The caller's stack has room for the arguments, the return address and four registers. */
  ghost predicate CanCall(l: Layout, s: System, next: nat)
  {
    && s.cur < |l.base| && next < |l.base| && next in s.live && next != s.cur
    && l.base[s.cur] + 28 <= s.m.esp <= l.base[s.cur] + PAGE_SIZE
  }

  function SwitchTo(l: Layout, s: System, next: nat, ret: nat): System
    requires s.m.esp >= 28 && s.cur < |l.slot| && next < |l.slot| && s.cur < |s.saved|
  {
    System(SwitchAsm(CallMachine(l, s, next, ret)), next, s.live, s.saved[s.cur := CallerContext(l, s, next, ret)])
  }

  /** The machine is as context `c` says. */
  ghost predicate Restored(m: Machine, c: Context, top: nat)
  {
    && m.ebx == c.ebx && m.esi == c.esi && m.edi == c.edi && m.ebp == c.ebp && m.esp == c.esp && m.eip == c.eip
    && (forall a | c.esp <= a < top :: Get(m.mem, a) == Get(c.stack, a))
  }

  /** The memory after the call and the pushes: the caller's frame and esp field, nothing else. */
  ghost predicate FrameWritten(l: Layout, s: System, next: nat, ret: nat, mem: Memory)
    requires s.cur < |l.base| == |l.slot| && next < |l.base|
  {
    var top := s.m.esp;
    && Get(mem, l.slot[s.cur]) == top - 28
    && Get(mem, top - 28) == s.m.edi && Get(mem, top - 24) == s.m.esi && Get(mem, top - 20) == s.m.ebx
    && Get(mem, top - 16) == s.m.ebp && Get(mem, top - 12) == ret
    && Get(mem, top - 8) == l.slot[s.cur] && Get(mem, top - 4) == Get(s.m.mem, l.slot[next])
    && (forall a {:trigger Get(mem, a)} | a != l.slot[s.cur] && !Frame(top, a) :: Get(mem, a) == Get(s.m.mem, a))
  }

  /** The seven words pushed below `top`. */
  ghost predicate Frame(top: nat, a: nat)
  {
    || a == top - 4 || a == top - 8 || a == top - 12 || a == top - 16 || a == top - 20 || a == top - 24 || a == top - 28
  }

  /** Machine `m` is at the entry of task_switch_asm, called in state `s`: three words are on the stack. */
  ghost predicate AtEntry(l: Layout, s: System, next: nat, ret: nat, m: Machine)
    requires s.m.esp >= 12 && s.cur < |l.slot| && next < |l.slot|
  {
    && m == s.m.(esp := s.m.esp - 12, mem := m.mem)
    && Get(m.mem, s.m.esp - 4) == Get(s.m.mem, l.slot[next])
    && Get(m.mem, s.m.esp - 8) == l.slot[s.cur]
    && Get(m.mem, s.m.esp - 12) == ret
    && (forall a {:trigger Get(m.mem, a)} | a != s.m.esp - 4 && a != s.m.esp - 8 && a != s.m.esp - 12 ::
         Get(m.mem, a) == Get(s.m.mem, a))
  }

  /** From `m` four registers were pushed, the stack pointer stored at `slot` and the frame at `esp` loaded. */
  ghost predicate Switched(m: Machine, slot: nat, esp: nat, u: Machine)
    requires m.esp >= 16
  {
    && u == LoadedFrom(u.mem, esp, slot)
    && Get(u.mem, slot) == m.esp - 16
    && Get(u.mem, m.esp - 4) == m.ebp && Get(u.mem, m.esp - 8) == m.ebx
    && Get(u.mem, m.esp - 12) == m.esi && Get(u.mem, m.esp - 16) == m.edi
    && (forall a {:trigger Get(u.mem, a)}
          | a != slot && a != m.esp - 4 && a != m.esp - 8 && a != m.esp - 12 && a != m.esp - 16 ::
          Get(u.mem, a) == Get(m.mem, a))
  }

  lemma SwitchMemory(l: Layout, s: System, next: nat, ret: nat)
    requires LayoutOk(l) && CanCall(l, s, next) && s.cur < |s.saved|
    ensures FrameWritten(l, s, next, ret, SwitchTo(l, s, next, ret).m.mem)
    ensures var u := SwitchTo(l, s, next, ret).m; u == LoadedFrom(u.mem, Get(s.m.mem, l.slot[next]), l.slot[s.cur])
  {
    var m := CallMachine(l, s, next, ret);
    EntryReached(l, s, next, ret);
    SwitchMemoryFrom(l, s, next, ret, m);
  }

  lemma SwitchMemoryFrom(l: Layout, s: System, next: nat, ret: nat, m: Machine)
    requires LayoutOk(l) && CanCall(l, s, next) && AtEntry(l, s, next, ret, m)
    ensures FrameWritten(l, s, next, ret, SwitchAsm(m).mem)
    ensures SwitchAsm(m) == LoadedFrom(SwitchAsm(m).mem, Get(s.m.mem, l.slot[next]), l.slot[s.cur])
  {
    assert !InStack(l, s.cur, l.slot[s.cur]);
    AsmEffect(m, l.slot[s.cur], Get(s.m.mem, l.slot[next]));
    FrameFrom(l, s, next, ret, m, SwitchAsm(m));
  }

  lemma FrameFrom(l: Layout, s: System, next: nat, ret: nat, m: Machine, u: Machine)
    requires LayoutOk(l) && CanCall(l, s, next) && AtEntry(l, s, next, ret, m)
    requires Switched(m, l.slot[s.cur], Get(s.m.mem, l.slot[next]), u)
    ensures FrameWritten(l, s, next, ret, u.mem)
  {
    assert !InStack(l, s.cur, l.slot[s.cur]);
  }

  lemma EntryReached(l: Layout, s: System, next: nat, ret: nat)
    requires s.m.esp >= 12 && s.cur < |l.slot| && next < |l.slot|
    ensures AtEntry(l, s, next, ret, CallMachine(l, s, next, ret))
  {
  }

  lemma AsmEffect(m: Machine, slot: nat, esp: nat)
    requires m.esp >= 16 && Get(m.mem, m.esp + 4) == slot && Get(m.mem, m.esp + 8) == esp
    requires !(m.esp - 16 <= slot < m.esp + 12)
    ensures Switched(m, slot, esp, SwitchAsm(m))
  {
    SavedStack(m);
    var saved := SaveFrame(m);
    assert saved.esp + 20 == m.esp + 4 && saved.esp + 24 == m.esp + 8;
  }

  lemma SavedStack(m: Machine)
    requires m.esp >= 16
    ensures var u := SaveFrame(m);
      && u == m.(esp := m.esp - 16, mem := u.mem)
      && Get(u.mem, m.esp - 4) == m.ebp && Get(u.mem, m.esp - 8) == m.ebx
      && Get(u.mem, m.esp - 12) == m.esi && Get(u.mem, m.esp - 16) == m.edi
      && (forall a | a != m.esp - 4 && a != m.esp - 8 && a != m.esp - 12 && a != m.esp - 16 ::
           Get(u.mem, a) == Get(m.mem, a))
  {
  }

  /** Other tasks do not notice the caller's frame. */
  lemma FrameElsewhere(l: Layout, s: System, next: nat, ret: nat, mem: Memory, t: nat)
    requires LayoutOk(l) && CanCall(l, s, next) && FrameWritten(l, s, next, ret, mem)
    requires t < |l.base| && t != s.cur
    ensures SameFor(l, s.m.mem, mem, t)
  {
    assert Apart(l, t, s.cur) && !InStack(l, s.cur, l.slot[t]) && !InStack(l, t, l.slot[s.cur]);
  }

  lemma CallerSuspended(l: Layout, s: System, next: nat, ret: nat, mem: Memory)
    requires LayoutOk(l) && CanCall(l, s, next) && FrameWritten(l, s, next, ret, mem)
    ensures Suspended(l, mem, s.cur, CallerContext(l, s, next, ret))
  {
    assert !InStack(l, s.cur, l.slot[s.cur]);
    var c := CallerContext(l, s, next, ret);
    forall a | c.esp <= a < l.base[s.cur] + PAGE_SIZE ensures Get(mem, a) == Get(c.stack, a) {
      assert InStack(l, s.cur, a);
    }
  }

  /** A switch restores the next task and suspends the caller, and disturbs no other suspended task. */
  lemma SwitchKeeps(l: Layout, s: System, next: nat, ret: nat)
    requires SystemOk(l, s) && CanCall(l, s, next)
    ensures SystemOk(l, SwitchTo(l, s, next, ret))
    ensures Restored(SwitchTo(l, s, next, ret).m, s.saved[next], l.base[next] + PAGE_SIZE)
  {
    SwitchMemory(l, s, next, ret);
    var u := SwitchTo(l, s, next, ret);
    FramesKept(l, s, next, ret, u.m.mem);
    CallerSuspended(l, s, next, ret, u.m.mem);
    FrameLoaded(l, s, next, ret, u.m);
  }

  /** Popping the frame of a suspended task restores its context. */
  lemma FrameLoaded(l: Layout, s: System, next: nat, ret: nat, m: Machine)
    requires SystemOk(l, s) && CanCall(l, s, next) && FrameWritten(l, s, next, ret, m.mem)
    requires m == LoadedFrom(m.mem, Get(s.m.mem, l.slot[next]), l.slot[s.cur])
    ensures Restored(m, s.saved[next], l.base[next] + PAGE_SIZE)
  {
    FramesKept(l, s, next, ret, m.mem);
    FrameElsewhere(l, s, next, ret, m.mem, next);
    assert Suspended(l, m.mem, next, s.saved[next]);
  }

  lemma FramesKept(l: Layout, s: System, next: nat, ret: nat, mem: Memory)
    requires SystemOk(l, s) && CanCall(l, s, next) && FrameWritten(l, s, next, ret, mem)
    ensures forall t {:trigger s.saved[t]} | t in s.live && t != s.cur :: Suspended(l, mem, t, s.saved[t])
  {
    forall t | t in s.live && t != s.cur ensures Suspended(l, mem, t, s.saved[t]) {
      assert Suspended(l, s.m.mem, t, s.saved[t]);
      FrameElsewhere(l, s, next, ret, mem, t);
      StaysSuspended(l, s.m.mem, mem, t, s.saved[t]);
    }
  }

  // ---------------------------------------------------------------- new tasks

  /** The six words task_create writes at the top of a new stack. */
  function NewFrame(mem: Memory, base: nat, slot: nat, entry: nat, start: nat): Memory
  {
    var p := base + PAGE_SIZE - 24;
    mem[p + 20 := entry][p + 16 := start][p + 12 := 0][p + 8 := 0][p + 4 := 0][p := 0][slot := p]
  }

  function NewContext(mem: Memory, base: nat, entry: nat, start: nat): Context
  {
    Context(0, 0, 0, 0, base + PAGE_SIZE - 4, start, mem[base + PAGE_SIZE - 4 := entry])
  }

  /** Task `t` is new, and has a place in the layout. */
  ghost predicate CanCreate(l: Layout, s: System, t: nat)
  {
    t < |l.base| && t !in s.live
  }

  function Created(l: Layout, s: System, t: nat, entry: nat, start: nat): System
    requires t < |l.base| && t < |l.slot| && t < |s.saved|
  {
    System(s.m.(mem := NewFrame(s.m.mem, l.base[t], l.slot[t], entry, start)), s.cur, s.live + {t},
           s.saved[t := NewContext(s.m.mem, l.base[t], entry, start)])
  }

  /** A new task counts as suspended with a context that starts at task_start_asm with its entry on top of the stack. */
  lemma NewTaskSuspended(l: Layout, mem: Memory, t: nat, entry: nat, start: nat)
    requires LayoutOk(l) && t < |l.base|
    ensures var c := NewContext(mem, l.base[t], entry, start);
      && Suspended(l, NewFrame(mem, l.base[t], l.slot[t], entry, start), t, c)
      && c.eip == start && Get(c.stack, c.esp) == entry
  {
    assert !InStack(l, t, l.slot[t]);
  }

  /** The frame and the record of a new task are in no other task's stack or record. */
  lemma NewFrameElsewhere(l: Layout, mem: Memory, t: nat, entry: nat, start: nat, u: nat)
    requires LayoutOk(l) && t < |l.base| && u < |l.base| && t != u
    ensures SameFor(l, mem, NewFrame(mem, l.base[t], l.slot[t], entry, start), u)
  {
    assert Apart(l, t, u) && !InStack(l, t, l.slot[u]) && !InStack(l, u, l.slot[t]);
  }

  /** Creating a task suspends it at its entry and disturbs no other suspended task. */
  lemma CreateKeeps(l: Layout, s: System, t: nat, entry: nat, start: nat)
    requires SystemOk(l, s) && CanCreate(l, s, t)
    ensures SystemOk(l, Created(l, s, t, entry, start))
  {
    var u := Created(l, s, t, entry, start);
    forall k | k in u.live && k != u.cur ensures Suspended(l, u.m.mem, k, u.saved[k]) {
      if k == t {
        NewTaskSuspended(l, s.m.mem, t, entry, start);
      } else {
        assert Suspended(l, s.m.mem, k, s.saved[k]);
        NewFrameElsewhere(l, s.m.mem, t, entry, start, k);
        StaysSuspended(l, s.m.mem, u.m.mem, k, s.saved[k]);
      }
    }
  }

  // --------------------------------------------------------------------- runs

  datatype Event = Run | Switch(next: nat, ret: nat) | Create(t: nat, entry: nat, start: nat)

  ghost predicate Follows(l: Layout, s: System, e: Event, u: System)
    requires SystemOk(l, s)
  {
    match e
    case Run => Runs(l, s, u)
    case Switch(next, ret) => CanCall(l, s, next) && u == SwitchTo(l, s, next, ret)
    case Create(t, entry, start) => CanCreate(l, s, t) && u == Created(l, s, t, entry, start)
  }

  ghost predicate History(l: Layout, ss: seq<System>, es: seq<Event>)
  {
    && |ss| == |es| + 1 && SystemOk(l, ss[0])
    && forall i {:trigger es[i]} | 0 <= i < |es| :: SystemOk(l, ss[i]) ==> Follows(l, ss[i], es[i], ss[i + 1])
  }

  lemma RunKeeps(l: Layout, s: System, u: System)
    requires SystemOk(l, s) && Runs(l, s, u)
    ensures SystemOk(l, u)
  {
    forall t | t in u.live && t != u.cur ensures Suspended(l, u.m.mem, t, u.saved[t]) {
      assert Suspended(l, s.m.mem, t, s.saved[t]);
      StaysSuspended(l, s.m.mem, u.m.mem, t, s.saved[t]);
    }
  }

  /** An event keeps the system sound, no task is lost, and only the caller of a switch gets a new context. */
  lemma FollowsKeeps(l: Layout, s: System, e: Event, u: System)
    requires SystemOk(l, s) && Follows(l, s, e, u)
    ensures SystemOk(l, u) && s.live <= u.live
    ensures forall t {:trigger u.saved[t]} | t in s.live && t != s.cur :: u.saved[t] == s.saved[t]
  {
    match e
    case Run => RunKeeps(l, s, u);
    case Switch(next, ret) => SwitchKeeps(l, s, next, ret);
    case Create(t, entry, start) => CreateKeeps(l, s, t, entry, start);
  }

  lemma {:induction false} HistoryKeeps(l: Layout, ss: seq<System>, es: seq<Event>, j: nat)
    requires History(l, ss, es) && j <= |es|
    ensures SystemOk(l, ss[j])
    ensures j < |es| ==> Follows(l, ss[j], es[j], ss[j + 1])
  {
    if j > 0 {
      HistoryKeeps(l, ss, es, j - 1);
      FollowsKeeps(l, ss[j - 1], es[j - 1], ss[j]);
    }
    if j < |es| {
      var e := es[j];
      assert Follows(l, ss[j], e, ss[j + 1]);
    }
  }

  /** While a task is not current, the context recorded for it does not change. */
  lemma {:induction false} ContextKept(l: Layout, ss: seq<System>, es: seq<Event>, i: nat, j: nat, t: nat)
    requires History(l, ss, es) && i <= j <= |es| && t in ss[i].live && t < |l.base|
    requires forall k | i <= k < j :: ss[k].cur != t
    ensures |ss[i].saved| == |ss[j].saved| == |l.base| && t in ss[j].live && ss[j].saved[t] == ss[i].saved[t]
    decreases j
  {
    HistoryKeeps(l, ss, es, i);
    HistoryKeeps(l, ss, es, j);
    if i < j {
      ContextKept(l, ss, es, i, j - 1, t);
      HistoryKeeps(l, ss, es, j - 1);
      FollowsKeeps(l, ss[j - 1], es[j - 1], ss[j]);
      assert ss[j].saved[t] == ss[j - 1].saved[t];
    }
  }

  /**
   Context preservation: a task suspended by event `i` and first switched back to by
   event `j` has, after that, the edi, esi, ebx, ebp, return address, stack pointer
   and stack contents it had when it called task_switch_asm, whatever ran and
   whichever tasks were created between.
   */
  lemma ContextPreserved(l: Layout, ss: seq<System>, es: seq<Event>, i: nat, j: nat, ret: nat)
    requires History(l, ss, es) && i < j < |es|
    requires es[i].Switch? && es[j].Switch? && es[j].next == ss[i].cur && es[i].ret == ret
    requires forall k | i < k <= j :: ss[k].cur != ss[i].cur
    ensures ss[i].cur < |l.base| && ss[i].m.esp >= 12 && ss[i].cur < |l.slot| && es[i].next < |l.slot|
    ensures ss[j + 1].cur == ss[i].cur
    ensures Restored(ss[j + 1].m, CallerContext(l, ss[i], es[i].next, ret), l.base[ss[i].cur] + PAGE_SIZE)
  {
    SuspendedAt(l, ss, es, i);
    ContextKept(l, ss, es, i + 1, j, ss[i].cur);
    ResumedAt(l, ss, es, j);
  }

  /** A switch at event `i` records the caller's context. */
  lemma SuspendedAt(l: Layout, ss: seq<System>, es: seq<Event>, i: nat)
    requires History(l, ss, es) && i < |es| && es[i].Switch?
    ensures ss[i].cur < |l.base| && ss[i].m.esp >= 12 && ss[i].cur < |l.slot| && es[i].next < |l.slot|
    ensures ss[i].cur in ss[i + 1].live && ss[i].cur < |ss[i + 1].saved|
    ensures ss[i + 1].saved[ss[i].cur] == CallerContext(l, ss[i], es[i].next, es[i].ret)
  {
    HistoryKeeps(l, ss, es, i);
  }

  /** A switch at event `j` restores the recorded context of the next task. */
  lemma ResumedAt(l: Layout, ss: seq<System>, es: seq<Event>, j: nat)
    requires History(l, ss, es) && j < |es| && es[j].Switch?
    ensures var t := es[j].next;
      && t < |l.base| && t < |ss[j].saved| && ss[j + 1].cur == t
      && Restored(ss[j + 1].m, ss[j].saved[t], l.base[t] + PAGE_SIZE)
  {
    HistoryKeeps(l, ss, es, j);
    SwitchKeeps(l, ss[j], es[j].next, es[j].ret);
  }

  /** A creation at event `i` records the new task's first context. */
  lemma CreatedAt(l: Layout, ss: seq<System>, es: seq<Event>, i: nat)
    requires History(l, ss, es) && i < |es| && es[i].Create?
    ensures var t := es[i].t;
      && t < |l.base| && t in ss[i + 1].live && t < |ss[i + 1].saved|
      && ss[i + 1].saved[t] == NewContext(ss[i].m.mem, l.base[t], es[i].entry, es[i].start)
  {
    HistoryKeeps(l, ss, es, i);
  }

  /**
   A task created by event `i` and first switched to by event `j` arrives at
   task_start_asm with cleared registers, and the word its `pop eax` takes is its
   entry point, whatever ran and whichever tasks were created between.
   */
  lemma NewTaskStarts(l: Layout, ss: seq<System>, es: seq<Event>, i: nat, j: nat)
    requires History(l, ss, es) && i < j < |es| && es[i].Create? && es[j].Switch? && es[j].next == es[i].t
    requires forall k | i < k <= j :: ss[k].cur != es[i].t
    ensures es[i].t < |l.base| && ss[j + 1].cur == es[i].t
    ensures var m := ss[j + 1].m;
      && m.eip == es[i].start && Get(m.mem, m.esp) == es[i].entry && m.esp + 4 == l.base[es[i].t] + PAGE_SIZE
      && m.ebx == m.esi == m.edi == m.ebp == 0
  {
    CreatedAt(l, ss, es, i);
    ContextKept(l, ss, es, i + 1, j, es[i].t);
    ResumedAt(l, ss, es, j);
    var c := ss[j].saved[es[i].t];
    assert Get(ss[j + 1].m.mem, c.esp) == Get(c.stack, c.esp);
  }
}
