/**
 Scheduler and stack switch together (hw3/scheduler.c, hw3/switch.S, hw3/irq.c): the
 run queue decides who runs next, the switch gives that task its own context back.
 Task t is structure t of the scheduler and stack t of the machine.
 */
module TaskSystem {
  import opened Seqs
  import S = Scheduler
  import M = StackSwitch

  datatype Joint = Joint(sched: S.State, machine: M.System)

  // The running task is the one the scheduler calls current; every other task that was
  // created is parked on its own stack.
  ghost predicate Coupled(tasks: seq<M.Layout>, j: Joint) {
    && S.Inv(j.sched) && M.Inv(tasks, j.machine)
    && j.machine.running == j.sched.current
    && j.machine.saved.Keys == j.sched.status.Keys - {j.sched.current}
  }

  // A structure that is used again loses its old context.
  ghost function Forget(y: M.System, t: nat): M.System {
    y.(saved := y.saved - {t})
  }

  // The switch that schedule makes. That the next task is suspended is not assumed.
  ghost predicate Switches(tasks: seq<M.Layout>, y: M.System, z: M.System, next: nat) {
    && M.PassesTasks(tasks, y, next) && M.CanSwitch(y.cpu, y.mem)
    && (z.cpu, z.mem) == M.Switched(y.cpu, y.mem) && z.running == next
    && z.saved == y.saved[y.running := M.Leaving(y.cpu, y.mem, tasks[y.running].hi)] - {next}
  }

  // The running task computes, up to `mid`, and then the event happens.
  ghost predicate Effect(tasks: seq<M.Layout>, s: S.State, e: S.Event, next: nat, mid: M.System, z: M.System) {
    match e
    case Spawn(t) =>
      exists entry: int, task: int, fptr: int, data: int ::
        M.Creates(tasks, Forget(mid, t), z, t, entry, task, fptr, data)
    case _ => if next == s.current then z == mid else Switches(tasks, mid, z, next)
  }

  ghost predicate Step(tasks: seq<M.Layout>, j: Joint, e: S.Event, k: Joint) {
    && S.Defined(j.sched) && S.Legal(j.sched, e) && k.sched == S.Act(j.sched, e)
    && exists mid :: M.ComputeStep(tasks, j.machine, mid) && Effect(tasks, j.sched, e, k.sched.current, mid, k.machine)
  }

  // The scheduler only ever switches to a task that is suspended, so the routine never
  // leaves memory.
  lemma SwitchDefined(tasks: seq<M.Layout>, j: Joint, e: S.Event, mid: M.System)
    requires Coupled(tasks, j) && S.Legal(j.sched, e) && M.ComputeStep(tasks, j.machine, mid)
    requires S.Act(j.sched, e).current != j.sched.current
    requires M.PassesTasks(tasks, mid, S.Act(j.sched, e).current)
    ensures M.CallsSwitch(tasks, mid, S.Act(j.sched, e).current) && M.CanSwitch(mid.cpu, mid.mem)
  {
    ComputeKeeps(tasks, j.machine, mid);
    StepDecides(tasks, j, e);
    M.SwitchEnabled(tasks, mid, S.Act(j.sched, e).current);
  }

  lemma ComputeKeeps(tasks: seq<M.Layout>, y: M.System, mid: M.System)
    requires M.Inv(tasks, y) && M.ComputeStep(tasks, y, mid)
    ensures M.Inv(tasks, mid) && mid.running == y.running && mid.saved == y.saved
  {
    M.StepPreserves(tasks, y, mid);
  }

  lemma Swapped(before: map<nat, M.Context>, after: map<nat, M.Context>, all: set<nat>, me: nat, next: nat, c: M.Context)
    requires after == before[me := c] - {next} && before.Keys == all - {me} && me in all && next != me
    ensures after.Keys == all - {next}
    ensures forall u :: u in before && u != next ==> u in after && after[u] == before[u]
  {
  }

  // The contexts after a switch: the caller's is added, that of the next task is taken.
  lemma SwitchSaved(tasks: seq<M.Layout>, all: set<nat>, y: M.System, z: M.System, next: nat)
    requires y.saved.Keys == all - {y.running} && y.running in all && next in y.saved && Switches(tasks, y, z, next)
    ensures M.SwitchStep(tasks, y, z) && z.running == next && z.saved.Keys == all - {next}
    ensures forall u :: u in y.saved && u != next ==> u in z.saved && z.saved[u] == y.saved[u]
  {
    Swapped(y.saved, z.saved, all, y.running, next, M.Leaving(y.cpu, y.mem, tasks[y.running].hi));
  }

  lemma SwitchMachine(tasks: seq<M.Layout>, y: M.System, z: M.System)
    requires M.Inv(tasks, y) && M.SwitchStep(tasks, y, z)
    ensures M.Inv(tasks, z) && z.running in y.saved && z.running < |tasks|
    ensures M.Restored(z.cpu, z.mem, tasks[z.running].hi, y.saved[z.running])
  {
    M.SwitchKeepsInv(tasks, y, z);
    M.SwitchRestores(tasks, y, z);
  }

  lemma ForgetInv(tasks: seq<M.Layout>, y: M.System, t: nat)
    requires M.Inv(tasks, y)
    ensures M.Inv(tasks, Forget(y, t))
  {
  }

  // What a creation does to the contexts of the tasks.
  ghost predicate Joined(y: M.System, z: M.System, t: nat) {
    && z.running == y.running && z.saved.Keys == y.saved.Keys + {t}
    && forall u :: u in y.saved && u != t ==> z.saved[u] == y.saved[u]
  }

  lemma Rejoined(before: map<nat, M.Context>, after: map<nat, M.Context>, t: nat, c: M.Context)
    requires after == (before - {t})[t := c]
    ensures after.Keys == before.Keys + {t}
    ensures forall u :: u in before && u != t ==> after[u] == before[u]
  {
  }

  lemma SpawnMachine(tasks: seq<M.Layout>, y: M.System, t: nat, z: M.System, entry: int, task: int, fptr: int, data: int)
    requires M.Creates(tasks, Forget(y, t), z, t, entry, task, fptr, data)
    ensures Joined(y, z, t)
  {
    Rejoined(y.saved, z.saved, t, M.Context(0, 0, 0, 0, tasks[t].hi - 4, entry, [0, task, fptr, data]));
  }

  lemma Spawned(tasks: seq<M.Layout>, y: M.System, s: S.State, t: nat, next: nat, z: M.System)
    requires M.Inv(tasks, y) && Effect(tasks, s, S.Spawn(t), next, y, z)
    ensures M.Inv(tasks, z) && Joined(y, z, t)
  {
    var entry: int, task: int, fptr: int, data: int :|
      M.Creates(tasks, Forget(y, t), z, t, entry, task, fptr, data);
    ForgetInv(tasks, y, t);
    M.CreatePreserves(tasks, Forget(y, t), z, t, entry, task, fptr, data);
    SpawnMachine(tasks, y, t, z, entry, task, fptr, data);
  }

  // What a step does to the machine: `all` tasks are created now, `next` runs, the other
  // contexts are kept and that of next is restored if it was parked.
  ghost predicate Moved(tasks: seq<M.Layout>, all: set<nat>, saved: map<nat, M.Context>, e: S.Event, next: nat, z: M.System) {
    && M.Inv(tasks, z) && z.running == next && z.saved.Keys == all - {next}
    && (forall u :: u in saved && e != S.Spawn(u) && u != next ==> u in z.saved && z.saved[u] == saved[u])
    && (next in saved ==> next < |tasks| && M.Restored(z.cpu, z.mem, tasks[next].hi, saved[next]))
  }

  lemma SwitchMoves(tasks: seq<M.Layout>, all: set<nat>, y: M.System, e: S.Event, next: nat, z: M.System)
    requires M.Inv(tasks, y) && y.saved.Keys == all - {y.running} && y.running in all
    requires next in y.saved && Switches(tasks, y, z, next)
    ensures Moved(tasks, all, y.saved, e, next, z)
  {
    SwitchSaved(tasks, all, y, z, next);
    SwitchMachine(tasks, y, z);
  }

  lemma SpawnMoves(tasks: seq<M.Layout>, all: set<nat>, y: M.System, t: nat, z: M.System)
    requires M.Inv(tasks, z) && Joined(y, z, t)
    requires y.saved.Keys == all - {y.running} && t != y.running
    ensures Moved(tasks, all + {t}, y.saved, S.Spawn(t), y.running, z)
  {
    assert all - {y.running} + {t} == all + {t} - {y.running};
  }

  // What a step does to the scheduler.
  ghost predicate Decided(j: Joint, e: S.Event, r: S.State) {
    && S.Inv(r) && r.status.Keys == (if e.Spawn? then j.sched.status.Keys + {e.task} else j.sched.status.Keys)
    && (r.current != j.sched.current ==> r.current in j.machine.saved && !e.Spawn?)
    && (e.Spawn? ==> e.task != j.sched.current && e.task !in j.sched.queue)
  }

  lemma StepDecides(tasks: seq<M.Layout>, j: Joint, e: S.Event)
    requires Coupled(tasks, j) && S.Legal(j.sched, e)
    ensures Decided(j, e, S.Act(j.sched, e))
    ensures forall t :: t in j.sched.queue ==> t in j.machine.saved
  {
    S.ActPreserves(j.sched, e);
    if j.sched.queue != [] { assert j.sched.queue[0] in j.sched.queue; }
  }

  lemma StepMoves(tasks: seq<M.Layout>, j: Joint, e: S.Event, r: S.State, mid: M.System, z: M.System)
    requires Coupled(tasks, j) && Decided(j, e, r)
    requires M.Inv(tasks, mid) && mid.running == j.machine.running && mid.saved == j.machine.saved
    requires Effect(tasks, j.sched, e, r.current, mid, z)
    ensures Moved(tasks, r.status.Keys, mid.saved, e, r.current, z)
  {
    if e.Spawn? {
      Spawned(tasks, mid, j.sched, e.task, r.current, z);
      SpawnMoves(tasks, j.sched.status.Keys, mid, e.task, z);
    } else if r.current != j.sched.current {
      SwitchMoves(tasks, j.sched.status.Keys, mid, e, r.current, z);
    }
  }

  lemma StepFacts(tasks: seq<M.Layout>, j: Joint, e: S.Event, k: Joint)
    requires Coupled(tasks, j) && Step(tasks, j, e, k)
    ensures Decided(j, e, k.sched) && forall t :: t in j.sched.queue ==> t in j.machine.saved
    ensures Moved(tasks, k.sched.status.Keys, j.machine.saved, e, k.sched.current, k.machine)
  {
    var mid :| M.ComputeStep(tasks, j.machine, mid) && Effect(tasks, j.sched, e, k.sched.current, mid, k.machine);
    ComputeKeeps(tasks, j.machine, mid);
    StepDecides(tasks, j, e);
    StepMoves(tasks, j, e, k.sched, mid, k.machine);
  }

  // One step keeps the parts coupled. A task that stays in the queue keeps its context,
  // and one that leaves it to run has it back.
  lemma StepPreserves(tasks: seq<M.Layout>, j: Joint, e: S.Event, k: Joint)
    requires Coupled(tasks, j) && Step(tasks, j, e, k)
    ensures Coupled(tasks, k)
    ensures forall t :: t in j.sched.queue ==> t in j.machine.saved && ContextKept(tasks, j.machine.saved[t], k, t)
  {
    StepFacts(tasks, j, e, k);
  }

  // The context is where it should be: in the machine if t runs, else on its stack.
  ghost predicate ContextKept(tasks: seq<M.Layout>, c: M.Context, k: Joint, t: nat) {
    if k.sched.current == t
    then t < |tasks| && M.Restored(k.machine.cpu, k.machine.mem, tasks[t].hi, c)
    else t in k.machine.saved && k.machine.saved[t] == c
  }

  /* Runs */

  // The first task runs on the boot stack; nobody else exists.
  lemma BootCoupled(tasks: seq<M.Layout>, memory: seq<int>, first: nat, cpu: M.Cpu, mem: seq<int>)
    requires first < |memory| && first < |tasks| && M.GoodLayout(tasks, |mem|)
    ensures Coupled(tasks, Joint(S.State([], first, memory, map[first := S.Ready], {first}, 0), M.System(cpu, mem, first, map[])))
  {
  }

  ghost predicate IsRun(tasks: seq<M.Layout>, run: seq<Joint>, es: seq<S.Event>) {
    |run| == |es| + 1 && forall i, n :: 0 <= i < |es| && n == i + 1 ==> Step(tasks, run[i], es[i], run[n])
  }

  lemma {:induction false} RunCoupled(tasks: seq<M.Layout>, run: seq<Joint>, es: seq<S.Event>, n: nat)
    requires IsRun(tasks, run, es) && n < |run| && Coupled(tasks, run[0])
    ensures Coupled(tasks, run[n])
  {
    if n > 0 {
      RunCoupled(tasks, run, es, n - 1);
      StepPreserves(tasks, run[n - 1], es[n - 1], run[n]);
    }
  }

  // Service with the right context. Over any interleaving of yields, interrupts, exits,
  // creations and computations of the running tasks, a task at place k of the queue runs
  // before TicksLeft timer ticks are over, and when it does, it has exactly the registers,
  // stack and return address it was parked with.
  lemma {:induction false} ServedFrom(tasks: seq<M.Layout>, run: seq<Joint>, es: seq<S.Event>, i: nat, t: nat, k: nat) returns (n: nat)
    requires IsRun(tasks, run, es) && i <= |es| && Coupled(tasks, run[i])
    requires k < |run[i].sched.queue| && run[i].sched.queue[k] == t
    requires S.TickCount(es[i..]) >= S.TicksLeft(run[i].sched, k)
    ensures i < n <= |es| && run[n].sched.current == t
    ensures t in run[i].machine.saved && ContextKept(tasks, run[i].machine.saved[t], run[n], t)
    decreases |es| - i
  {
    S.TicksLeftPositive(run[i].sched, k);
    var m := Advance(tasks, run, es, i, t, k);
    if run[i + 1].sched.current == t {
      n := i + 1;
    } else {
      n := ServedFrom(tasks, run, es, i + 1, t, m);
    }
  }

  lemma Advance(tasks: seq<M.Layout>, run: seq<Joint>, es: seq<S.Event>, i: nat, t: nat, k: nat) returns (m: nat)
    requires IsRun(tasks, run, es) && i < |es| && Coupled(tasks, run[i])
    requires k < |run[i].sched.queue| && run[i].sched.queue[k] == t
    ensures Coupled(tasks, run[i + 1])
    ensures t in run[i].machine.saved && ContextKept(tasks, run[i].machine.saved[t], run[i + 1], t)
    ensures run[i + 1].sched.current != t ==>
              m < |run[i + 1].sched.queue| && run[i + 1].sched.queue[m] == t
              && S.TickCount(es[i + 1..]) - S.TicksLeft(run[i + 1].sched, m) >= S.TickCount(es[i..]) - S.TicksLeft(run[i].sched, k)
  {
    assert Step(tasks, run[i], es[i], run[i + 1]);
    assert t in run[i].sched.queue;
    StepPreserves(tasks, run[i], es[i], run[i + 1]);
    assert es[i..][0] == es[i] && es[i..][1..] == es[i + 1..];
    if S.Calls(run[i].sched, es[i]) && k == 0 {
      S.QueueMoves(run[i].sched, es[i], t, k);
      m := 0;
    } else {
      m := S.Nearer(run[i].sched, es[i], t, k);
    }
  }

  // Service with the right context. Over any interleaving of yields, interrupts, exits,
  // creations and computations of the running tasks, a task at place k of the queue runs
  // before TicksLeft timer ticks are over, and when it does, it has exactly the registers,
  // stack and return address it was parked with.
  lemma Served(tasks: seq<M.Layout>, run: seq<Joint>, es: seq<S.Event>, t: nat, k: nat) returns (n: nat)
    requires IsRun(tasks, run, es) && Coupled(tasks, run[0])
    requires k < |run[0].sched.queue| && run[0].sched.queue[k] == t
    requires S.TickCount(es) >= S.TicksLeft(run[0].sched, k)
    ensures 0 < n <= |es| && run[n].sched.current == t
    ensures t < |tasks| && t in run[0].machine.saved
    ensures M.Restored(run[n].machine.cpu, run[n].machine.mem, tasks[t].hi, run[0].machine.saved[t])
  {
    assert es[0..] == es;
    n := ServedFrom(tasks, run, es, 0, t, k);
  }
}
