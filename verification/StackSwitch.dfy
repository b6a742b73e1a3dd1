/**
 The stack switch of hw3/switch.S and the initial frame of hw3/scheduler.c.
 Memory is a sequence of 32-bit words and addresses count words, so the operand
 4(%esp) is the word at esp + 1.
 */
module StackSwitch {

  datatype Cpu = Cpu(eax: int, edx: int, ebx: int, esi: int, edi: int, ebp: int, esp: int, eip: int)

  /* The routine */

  // Room for four pushes, the two arguments, and valid pointers in them.
  predicate CanSwitch(cpu: Cpu, mem: seq<int>) {
    && 4 <= cpu.esp && cpu.esp + 2 < |mem|
    && 0 <= mem[cpu.esp + 1] < |mem|
    && 0 <= mem[cpu.esp + 2] && mem[cpu.esp + 2] + 4 < |mem|
  }

  // Memory after the four pushes.
  function Pushed(cpu: Cpu, mem: seq<int>): (m: seq<int>)
    requires 4 <= cpu.esp <= |mem|
    ensures |m| == |mem|
  {
    mem[cpu.esp - 1 := cpu.ebp][cpu.esp - 2 := cpu.ebx][cpu.esp - 3 := cpu.esi][cpu.esp - 4 := cpu.edi]
  }

  function Switched(cpu: Cpu, mem: seq<int>): (Cpu, seq<int>)
    requires CanSwitch(cpu, mem)
  {
    var slot, top := mem[cpu.esp + 1], mem[cpu.esp + 2];
    var m := Pushed(cpu, mem)[slot := cpu.esp - 4];
    (Cpu(slot, top, m[top + 2], m[top + 1], m[top], m[top + 3], top + 5, m[top + 4]), m)
  }

  class Machine {
    var cpu: Cpu
    const mem: array<int>

    constructor (cpu: Cpu, mem: array<int>)
      ensures this.cpu == cpu && this.mem == mem
    {
      this.cpu, this.mem := cpu, mem;
    }

    method Push(v: int)
      requires 1 <= cpu.esp <= mem.Length
      modifies this, mem
      ensures cpu == old(cpu).(esp := old(cpu.esp) - 1)
      ensures mem[..] == old(mem[..])[old(cpu.esp) - 1 := v]
    {
      cpu := cpu.(esp := cpu.esp - 1);
      mem[cpu.esp] := v;
    }

    method Pop() returns (v: int)
      requires 0 <= cpu.esp < mem.Length
      modifies this
      ensures v == mem[old(cpu.esp)] && cpu == old(cpu).(esp := old(cpu.esp) + 1)
    {
      v := mem[cpu.esp];
      cpu := cpu.(esp := cpu.esp + 1);
    }

    // task_state_switch, one statement per instruction.
    method TaskStateSwitch()
      requires CanSwitch(cpu, mem[..])
      modifies this, mem
      ensures (cpu, mem[..]) == Switched(old(cpu), old(mem[..]))
    {
      cpu := cpu.(eax := mem[cpu.esp + 1]);
      cpu := cpu.(edx := mem[cpu.esp + 2]);
      Save();
      cpu := cpu.(esp := cpu.edx);
      Restore();
    }

    // The pushes, and the store of the stack pointer through eax.
    method Save()
      requires 4 <= cpu.esp <= mem.Length && 0 <= cpu.eax < mem.Length
      modifies this, mem
      ensures cpu == old(cpu).(esp := old(cpu.esp) - 4)
      ensures mem[..] == Pushed(old(cpu), old(mem[..]))[old(cpu.eax) := old(cpu.esp) - 4]
    {
      Push(cpu.ebp);
      Push(cpu.ebx);
      Push(cpu.esi);
      Push(cpu.edi);
      mem[cpu.eax] := cpu.esp;
    }

    // The pops, and the return.
    method Restore()
      requires 0 <= cpu.esp && cpu.esp + 4 < mem.Length
      modifies this
      ensures var m, top := mem[..], old(cpu.esp);
              cpu == Cpu(old(cpu.eax), old(cpu.edx), m[top + 2], m[top + 1], m[top], m[top + 3], top + 5, m[top + 4])
    {
      var v := Pop();
      cpu := cpu.(edi := v);
      v := Pop();
      cpu := cpu.(esi := v);
      v := Pop();
      cpu := cpu.(ebx := v);
      v := Pop();
      cpu := cpu.(ebp := v);
      v := Pop();
      cpu := cpu.(eip := v);
    }
  }

  /* Tasks: task t owns the stack [lo, hi) and the word `slot` (its task_state field). */

  datatype Layout = Layout(lo: int, hi: int, slot: int)

  ghost predicate GoodLayout(tasks: seq<Layout>, size: int) {
    && (forall t :: 0 <= t < |tasks| ==> 0 <= tasks[t].lo <= tasks[t].hi <= size && 0 <= tasks[t].slot < size)
    && (forall t, u :: 0 <= t < |tasks| && 0 <= u < |tasks| ==> !(tasks[t].lo <= tasks[u].slot < tasks[t].hi))
    && (forall t, u :: 0 <= t < u < |tasks| ==>
          tasks[t].slot != tasks[u].slot && (tasks[t].hi <= tasks[u].lo || tasks[u].hi <= tasks[t].lo))
  }

  // What a task gets back when it resumes: callee-saved registers, stack pointer,
  // the address it continues at, and the words of its stack.
  datatype Context = Context(ebp: int, ebx: int, esi: int, edi: int, esp: int, eip: int, stack: seq<int>)

  // The context a task leaves behind when it calls task_state_switch: the call
  // returns to the word at esp, popping it.
  function Leaving(cpu: Cpu, mem: seq<int>, hi: int): Context
    requires 0 <= cpu.esp < hi <= |mem|
  {
    Context(cpu.ebp, cpu.ebx, cpu.esi, cpu.edi, cpu.esp + 1, mem[cpu.esp], mem[cpu.esp + 1..hi])
  }

  // The cpu and memory show exactly this context.
  predicate Restored(cpu: Cpu, mem: seq<int>, hi: int, c: Context) {
    && cpu.ebp == c.ebp && cpu.ebx == c.ebx && cpu.esi == c.esi && cpu.edi == c.edi
    && cpu.esp == c.esp && cpu.eip == c.eip
    && 0 <= c.esp <= hi <= |mem| && mem[c.esp..hi] == c.stack
  }

  // The five words that the routine pops.
  predicate FrameAt(mem: seq<int>, at: int, c: Context) {
    && 0 <= at && at + 5 <= |mem|
    && mem[at] == c.edi && mem[at + 1] == c.esi && mem[at + 2] == c.ebx && mem[at + 3] == c.ebp && mem[at + 4] == c.eip
  }

  // The context lies on the stack of a suspended task, where its slot points.
  predicate Parked(mem: seq<int>, task: Layout, c: Context) {
    && 0 <= task.slot < |mem| && task.hi <= |mem|
    && mem[task.slot] == c.esp - 5 && 0 <= task.lo <= c.esp - 5 && c.esp <= task.hi
    && FrameAt(mem, c.esp - 5, c) && mem[c.esp..task.hi] == c.stack
  }

  // Memory changes that leave the stack and slot of a task alone.
  predicate TaskKept(before: seq<int>, after: seq<int>, task: Layout) {
    && |after| == |before| && 0 <= task.slot < |before| && 0 <= task.lo <= task.hi <= |before|
    && after[task.slot] == before[task.slot]
    && forall a :: task.lo <= a < task.hi ==> after[a] == before[a]
  }

  lemma ParkedKept(before: seq<int>, after: seq<int>, task: Layout, c: Context)
    requires Parked(before, task, c) && TaskKept(before, after, task)
    ensures Parked(after, task, c)
  {
    assert after[c.esp..task.hi] == before[c.esp..task.hi];
  }

  // task_new: the words of struct task_start_frame, at the top of the stack.
  function StartFrame(entry: int, task: int, fptr: int, data: int): seq<int> {
    [0, 0, 0, 0, entry, 0, task, fptr, data]
  }

  function TaskNew(mem: seq<int>, layout: Layout, entry: int, task: int, fptr: int, data: int): seq<int>
    requires 0 <= layout.lo && layout.lo + 9 <= layout.hi <= |mem| && 0 <= layout.slot < |mem|
  {
    (mem[..layout.hi - 9] + StartFrame(entry, task, fptr, data) + mem[layout.hi..])[layout.slot := layout.hi - 9]
  }

  // A new task is parked as if it had been about to return into `entry`.
  lemma TaskNewParks(mem: seq<int>, layout: Layout, entry: int, task: int, fptr: int, data: int)
    requires 0 <= layout.lo && layout.lo + 9 <= layout.hi <= |mem| && 0 <= layout.slot < |mem|
    requires !(layout.lo <= layout.slot < layout.hi)
    ensures Parked(TaskNew(mem, layout, entry, task, fptr, data), layout,
                   Context(0, 0, 0, 0, layout.hi - 4, entry, [0, task, fptr, data]))
  {
    var m := TaskNew(mem, layout, entry, task, fptr, data);
    assert forall k :: 0 <= k < 9 ==> m[layout.hi - 9 + k] == StartFrame(entry, task, fptr, data)[k];
    assert m[layout.hi - 4..layout.hi] == [0, task, fptr, data];
  }

  // The System V i386 calling sequence: at the entry of a function the word at esp
  // is the return address and the arguments follow it.
  predicate EntersWith(cpu: Cpu, mem: seq<int>, entry: int, args: seq<int>) {
    cpu.eip == entry && 0 <= cpu.esp && cpu.esp + 1 + |args| <= |mem| && mem[cpu.esp + 1..cpu.esp + 1 + |args|] == args
  }

  /* The system of tasks */

  datatype System = System(cpu: Cpu, mem: seq<int>, running: nat, saved: map<nat, Context>)

  // Every suspended task that was started or created is parked with its context.
  ghost predicate Inv(tasks: seq<Layout>, y: System) {
    && GoodLayout(tasks, |y.mem|)
    && y.running < |tasks| && y.running !in y.saved
    && forall t :: t in y.saved ==> t < |tasks| && Parked(y.mem, tasks[t], y.saved[t])
  }

  // The running task calls task_state_switch(&this->task_state, next->task_state).
  ghost predicate PassesTasks(tasks: seq<Layout>, y: System, next: nat) {
    && y.running < |tasks| && next < |tasks| && next != y.running
    && var me := tasks[y.running];
       me.lo + 4 <= y.cpu.esp && y.cpu.esp + 2 < me.hi <= |y.mem| && 0 <= me.lo
       && y.mem[y.cpu.esp + 1] == me.slot
       && 0 <= tasks[next].slot < |y.mem| && y.mem[y.cpu.esp + 2] == y.mem[tasks[next].slot]
  }

  // ... and the next task is suspended.
  ghost predicate CallsSwitch(tasks: seq<Layout>, y: System, next: nat) {
    PassesTasks(tasks, y, next) && next in y.saved
  }

  ghost predicate SwitchStep(tasks: seq<Layout>, y: System, z: System) {
    && CallsSwitch(tasks, y, z.running) && CanSwitch(y.cpu, y.mem)
    && (z.cpu, z.mem) == Switched(y.cpu, y.mem)
    && z.saved == y.saved[y.running := Leaving(y.cpu, y.mem, tasks[y.running].hi)] - {z.running}
  }

  // The running task computes: any registers, any memory but the stacks and slots of others.
  ghost predicate ComputeStep(tasks: seq<Layout>, y: System, z: System) {
    && z.running == y.running && z.saved == y.saved && |z.mem| == |y.mem|
    && forall t :: t in y.saved ==> t < |tasks| && TaskKept(y.mem, z.mem, tasks[t])
  }

  // The running task creates task t, which is not running and not suspended.
  ghost predicate CreateStep(tasks: seq<Layout>, y: System, z: System) {
    exists t: nat, entry: int, task: int, fptr: int, data: int :: Creates(tasks, y, z, t, entry, task, fptr, data)
  }

  ghost predicate Creates(tasks: seq<Layout>, y: System, z: System, t: nat, entry: int, task: int, fptr: int, data: int)
  {
    && t < |tasks| && t != y.running && t !in y.saved && z.running == y.running && z.cpu == y.cpu
    && 0 <= tasks[t].lo && tasks[t].lo + 9 <= tasks[t].hi <= |y.mem| && 0 <= tasks[t].slot < |y.mem|
    && z.mem == TaskNew(y.mem, tasks[t], entry, task, fptr, data)
    && z.saved == y.saved[t := Context(0, 0, 0, 0, tasks[t].hi - 4, entry, [0, task, fptr, data])]
  }

  ghost predicate Step(tasks: seq<Layout>, y: System, z: System) {
    SwitchStep(tasks, y, z) || ComputeStep(tasks, y, z) || CreateStep(tasks, y, z)
  }

  // In a valid system the call never leaves memory: every operand of the routine is in range.
  lemma SwitchEnabled(tasks: seq<Layout>, y: System, next: nat)
    requires Inv(tasks, y) && CallsSwitch(tasks, y, next)
    ensures CanSwitch(y.cpu, y.mem)
  {
    assert Parked(y.mem, tasks[next], y.saved[next]);
  }

  // What the routine writes: four words below its stack pointer, and its slot.
  predicate SwitchWrites(cpu: Cpu, before: seq<int>, after: seq<int>, slot: int) {
    && |after| == |before| && 4 <= cpu.esp <= |before| && 0 <= slot < |before|
    && !(cpu.esp - 4 <= slot < cpu.esp)
    && (forall a :: 0 <= a < |before| && a != slot && !(cpu.esp - 4 <= a < cpu.esp) ==> after[a] == before[a])
    && after[slot] == cpu.esp - 4
    && after[cpu.esp - 4] == cpu.edi && after[cpu.esp - 3] == cpu.esi
    && after[cpu.esp - 2] == cpu.ebx && after[cpu.esp - 1] == cpu.ebp
  }

  lemma SwitchedWrites(tasks: seq<Layout>, y: System, z: System)
    requires GoodLayout(tasks, |y.mem|) && SwitchStep(tasks, y, z)
    ensures SwitchWrites(y.cpu, y.mem, z.mem, tasks[y.running].slot)
    ensures z.running < |tasks| && 0 <= tasks[z.running].slot < |y.mem|
    ensures SwitchLoads(z.cpu, z.mem, y.mem[tasks[z.running].slot])
  {
  }

  lemma LeavingParks(cpu: Cpu, before: seq<int>, after: seq<int>, me: Layout)
    requires SwitchWrites(cpu, before, after, me.slot) && 0 <= me.lo && me.lo + 4 <= cpu.esp < me.hi <= |before|
    requires !(me.lo <= me.slot < me.hi)
    ensures Parked(after, me, Leaving(cpu, before, me.hi))
  {
    assert after[cpu.esp + 1..me.hi] == before[cpu.esp + 1..me.hi];
  }

  lemma StaysParked(tasks: seq<Layout>, y: System, z: System, t: nat)
    requires Inv(tasks, y) && SwitchStep(tasks, y, z) && t in y.saved
    ensures t < |tasks| && Parked(z.mem, tasks[t], y.saved[t])
  {
    SwitchedWrites(tasks, y, z);
    Untouched(tasks, y, z.mem, t);
    ParkedKept(y.mem, z.mem, tasks[t], y.saved[t]);
  }

  lemma CallerParks(tasks: seq<Layout>, y: System, z: System)
    requires GoodLayout(tasks, |y.mem|) && SwitchStep(tasks, y, z)
    ensures y.running in z.saved && y.running < |tasks| && Parked(z.mem, tasks[y.running], z.saved[y.running])
  {
    SwitchedWrites(tasks, y, z);
    LeavingParks(y.cpu, y.mem, z.mem, tasks[y.running]);
  }

  // What the routine pops: five words from `top` on.
  predicate SwitchLoads(cpu: Cpu, mem: seq<int>, top: int) {
    && 0 <= top && top + 4 < |mem| && cpu.esp == top + 5
    && cpu.edi == mem[top] && cpu.esi == mem[top + 1] && cpu.ebx == mem[top + 2]
    && cpu.ebp == mem[top + 3] && cpu.eip == mem[top + 4]
  }

  lemma LoadsParked(cpu: Cpu, mem: seq<int>, it: Layout, c: Context)
    requires Parked(mem, it, c) && SwitchLoads(cpu, mem, mem[it.slot])
    ensures Restored(cpu, mem, it.hi, c)
  {
  }

  // The routine saves the caller's context on its own stack and slot and touches
  // no other task ...
  lemma SwitchKeepsInv(tasks: seq<Layout>, y: System, z: System)
    requires Inv(tasks, y) && SwitchStep(tasks, y, z)
    ensures Inv(tasks, z)
  {
    CallerParks(tasks, y, z);
    forall t | t in z.saved ensures t < |tasks| && Parked(z.mem, tasks[t], z.saved[t]) {
      if t != y.running { StaysParked(tasks, y, z, t); }
    }
  }

  // ... and restores the context of the next task.
  lemma SwitchRestores(tasks: seq<Layout>, y: System, z: System)
    requires Inv(tasks, y) && SwitchStep(tasks, y, z)
    ensures z.running in y.saved && z.running < |tasks|
    ensures Restored(z.cpu, z.mem, tasks[z.running].hi, y.saved[z.running])
  {
    SwitchedWrites(tasks, y, z);
    StaysParked(tasks, y, z, z.running);
    LoadsParked(z.cpu, z.mem, tasks[z.running], y.saved[z.running]);
  }

  lemma Untouched(tasks: seq<Layout>, y: System, mem: seq<int>, t: nat)
    requires GoodLayout(tasks, |y.mem|) && y.running < |tasks| && t < |tasks| && t != y.running
    requires tasks[y.running].lo + 4 <= y.cpu.esp <= tasks[y.running].hi
    requires SwitchWrites(y.cpu, y.mem, mem, tasks[y.running].slot)
    ensures TaskKept(y.mem, mem, tasks[t])
  {
    var me, it := tasks[y.running], tasks[t];
    assert me.slot != it.slot && (me.hi <= it.lo || it.hi <= me.lo);
  }

  lemma CreatePreserves(tasks: seq<Layout>, y: System, z: System, t: nat, entry: int, task: int, fptr: int, data: int)
    requires Inv(tasks, y) && Creates(tasks, y, z, t, entry, task, fptr, data)
    ensures Inv(tasks, z)
  {
    TaskNewParks(y.mem, tasks[t], entry, task, fptr, data);
    forall u | u in y.saved ensures u < |tasks| && Parked(z.mem, tasks[u], y.saved[u]) {
      CreateLeavesParked(tasks, y, z, t, entry, task, fptr, data, u);
    }
  }

  lemma CreateLeavesParked(tasks: seq<Layout>, y: System, z: System, t: nat, entry: int, task: int, fptr: int,
                           data: int, u: nat)
    requires Inv(tasks, y) && Creates(tasks, y, z, t, entry, task, fptr, data) && u in y.saved
    ensures u < |tasks| && Parked(z.mem, tasks[u], y.saved[u])
  {
    CreateKeeps(y.mem, tasks[t], tasks[u], entry, task, fptr, data);
    ParkedKept(y.mem, z.mem, tasks[u], y.saved[u]);
  }

  lemma CreateKeeps(mem: seq<int>, created: Layout, other: Layout, entry: int, task: int, fptr: int, data: int)
    requires 0 <= created.lo && created.lo + 9 <= created.hi <= |mem| && 0 <= created.slot < |mem|
    requires 0 <= other.lo <= other.hi <= |mem| && 0 <= other.slot < |mem|
    requires created.slot != other.slot && (created.hi <= other.lo || other.hi <= created.lo)
    requires !(created.lo <= other.slot < created.hi) && !(other.lo <= created.slot < other.hi)
    ensures TaskKept(mem, TaskNew(mem, created, entry, task, fptr, data), other)
  {
  }

  lemma StepPreserves(tasks: seq<Layout>, y: System, z: System)
    requires Inv(tasks, y) && Step(tasks, y, z)
    ensures Inv(tasks, z)
  {
    if SwitchStep(tasks, y, z) {
      SwitchKeepsInv(tasks, y, z);
    } else if ComputeStep(tasks, y, z) {
      forall t | t in y.saved ensures Parked(z.mem, tasks[t], y.saved[t]) {
        ParkedKept(y.mem, z.mem, tasks[t], y.saved[t]);
      }
    } else {
      var t: nat, entry: int, task: int, fptr: int, data: int :| Creates(tasks, y, z, t, entry, task, fptr, data);
      CreatePreserves(tasks, y, z, t, entry, task, fptr, data);
    }
  }

  /* Runs */

  ghost predicate IsRun(tasks: seq<Layout>, run: seq<System>) {
    forall i, j :: 0 <= i && j == i + 1 < |run| ==> Step(tasks, run[i], run[j])
  }

  lemma {:induction false} RunKeepsInv(tasks: seq<Layout>, run: seq<System>, n: nat)
    requires IsRun(tasks, run) && n < |run| && Inv(tasks, run[0])
    ensures Inv(tasks, run[n])
  {
    if n > 0 {
      RunKeepsInv(tasks, run, n - 1);
      StepPreserves(tasks, run[n - 1], run[n]);
    }
  }

  // While a suspended task does not run, its context stays what it was.
  lemma {:induction false} ContextWaits(tasks: seq<Layout>, run: seq<System>, t: nat, i: nat, j: nat)
    requires IsRun(tasks, run) && i <= j < |run|
    requires t in run[i].saved && forall k :: i <= k <= j ==> run[k].running != t
    ensures t in run[j].saved && run[j].saved[t] == run[i].saved[t]
    decreases j
  {
    if i < j {
      ContextWaits(tasks, run, t, i, j - 1);
      assert Step(tasks, run[j - 1], run[j]);
    }
  }

  // A task suspended at position i that first runs again at j + 1 has its context back.
  lemma Resumes(tasks: seq<Layout>, run: seq<System>, t: nat, i: nat, j: nat)
    requires IsRun(tasks, run) && i <= j && j + 1 < |run| && Inv(tasks, run[0])
    requires t in run[i].saved && run[j + 1].running == t && forall k :: i <= k <= j ==> run[k].running != t
    ensures t < |tasks| && Restored(run[j + 1].cpu, run[j + 1].mem, tasks[t].hi, run[i].saved[t])
  {
    ContextWaits(tasks, run, t, i, j);
    RunKeepsInv(tasks, run, j);
    assert Step(tasks, run[j], run[j + 1]);
    assert SwitchStep(tasks, run[j], run[j + 1]);
    SwitchRestores(tasks, run[j], run[j + 1]);
  }

  // Switch integrity. Task t is switched out in step i and next switched in in step
  // j. Then it has exactly the registers and stack it left with, and continues at
  // the return address of its call.
  lemma SwitchIntegrity(tasks: seq<Layout>, run: seq<System>, t: nat, i: nat, j: nat)
    requires IsRun(tasks, run) && i < j && j + 1 < |run| && Inv(tasks, run[0])
    requires run[i].running == t && run[j + 1].running == t && forall k :: i < k <= j ==> run[k].running != t
    ensures t < |tasks| && 0 <= run[i].cpu.esp < tasks[t].hi <= |run[i].mem|
    ensures Restored(run[j + 1].cpu, run[j + 1].mem, tasks[t].hi, Leaving(run[i].cpu, run[i].mem, tasks[t].hi))
  {
    assert Step(tasks, run[i], run[i + 1]);
    assert SwitchStep(tasks, run[i], run[i + 1]);
    Resumes(tasks, run, t, i + 1, j);
  }

  // A task created in step i and first switched to in step j enters its entry point
  // as a function called with (task, fptr, data).
  lemma FirstResume(tasks: seq<Layout>, run: seq<System>, t: nat, i: nat, j: nat,
                    entry: int, task: int, fptr: int, data: int)
    requires IsRun(tasks, run) && i < j && j + 1 < |run| && Inv(tasks, run[0])
    requires Creates(tasks, run[i], run[i + 1], t, entry, task, fptr, data)
    requires run[j + 1].running == t && forall k :: i < k <= j ==> run[k].running != t
    ensures EntersWith(run[j + 1].cpu, run[j + 1].mem, entry, [task, fptr, data])
  {
    Resumes(tasks, run, t, i + 1, j);
    assert [0, task, fptr, data] == [0] + [task, fptr, data];
    ArgumentsOnTop(run[j + 1].cpu, run[j + 1].mem, tasks[t].hi, entry, [task, fptr, data]);
  }

  lemma ArgumentsOnTop(cpu: Cpu, mem: seq<int>, hi: int, entry: int, args: seq<int>)
    requires 0 <= cpu.esp <= hi <= |mem| && mem[cpu.esp..hi] == [0] + args && cpu.eip == entry
    ensures EntersWith(cpu, mem, entry, args)
  {
    forall k | 0 <= k < |args| ensures mem[cpu.esp + 1 + k] == args[k] {
      assert mem[cpu.esp..hi][k + 1] == ([0] + args)[k + 1];
    }
  }
}
