/**
 The preemptive round-robin scheduler of hw3: schedule and task_new
 (hw3/scheduler.c), the timer handler (hw3/time.c) and the preemption point
 (hw3/irq.c). Interrupts are atomic steps. The switch of stacks is the subject of
 module StackSwitch; here a switch makes the next task current.
 */
module Scheduler {
  import opened Seqs
  import opened Lists

  const SCHEDULER_TIME_SLICE: int := 10

  const IRQ_LOW: nat := 0x20
  const IRQS: nat := 0x10

  // An entry of the handler table: empty, the timer's, or one that does not touch tasks.
  datatype Handler = NoHandler | Timer | Other

  datatype Status = Ready | Blocked | Finished

  // A task is the number of its structure. `remain` holds that field of every structure,
  // created or not: task_new does not set it. `status` holds the state field of the tasks
  // created so far, `started` those that have run: they are suspended inside schedule,
  // the others at the beginning of task_start.
  datatype State = State(queue: seq<nat>, current: nat, remain: seq<int>, status: map<nat, Status>,
                         started: set<nat>, ticks: nat)

  predicate Defined(s: State) {
    && s.current in s.status && s.current < |s.remain|
    && (forall t | t in s.queue :: t < |s.remain| && t in s.status)
  }

  /* The functions of the code */

  // The queue as schedule leaves it, and the task it picks.
  function Requeued(s: State): seq<nat>
    requires s.current in s.status
  {
    if s.status[s.current] == Ready then s.queue + [s.current] else s.queue
  }

  function Rescheduled(s: State): (r: State)
    requires Defined(s)
    ensures Defined(r)
  {
    if s.queue == [] then s
    else
      var next := Requeued(s)[0];
      assert next in s.queue;
      s.(queue := Requeued(s)[1..], current := next,
         remain := if next in s.started then s.remain[next := SCHEDULER_TIME_SLICE] else s.remain,
         started := s.started + {next})
  }

  // The timer handler: one more tick, one less left of the slice.
  function Tick(s: State): (r: State)
    requires Defined(s)
    ensures Defined(r)
  {
    s.(ticks := s.ticks + 1, remain := s.remain[s.current := s.remain[s.current] - 1])
  }

  // irq_raw_handler: the handler, if it is the timer's, then the preemption point.
  function Interrupt(s: State, timer: bool): (r: State)
    requires Defined(s)
    ensures Defined(r)
  {
    var t := if timer then Tick(s) else s;
    if t.remain[t.current] <= 0 then Rescheduled(t) else t
  }

  function Created(s: State, task: nat): (r: State)
    requires Defined(s) && task < |s.remain|
    ensures Defined(r)
  {
    s.(queue := s.queue + [task], status := s.status[task := Ready], started := s.started - {task})
  }

  // The function of the running task returns.
  function Finish(s: State): (r: State)
    requires Defined(s)
    ensures Defined(r)
  {
    s.(status := s.status[s.current := Finished])
  }

  /* Steps and runs */

  datatype Event = Yield | TimerIrq | OtherIrq | Exit | Spawn(task: nat)

  // A structure is given to task_new only while it is not in use: not by the running
  // task and not in the queue. That of a finished task may be used again.
  predicate Legal(s: State, e: Event) {
    e.Spawn? ==> e.task < |s.remain| && e.task != s.current && e.task !in s.queue
  }

  function Act(s: State, e: Event): (r: State)
    requires Defined(s) && Legal(s, e)
    ensures Defined(r)
  {
    match e
    case Yield => Rescheduled(s)
    case TimerIrq => Interrupt(s, true)
    case OtherIrq => Interrupt(s, false)
    case Exit => Finish(s)
    case Spawn(t) => Created(s, t)
  }

  // The event calls schedule.
  predicate Calls(s: State, e: Event)
    requires Defined(s)
  {
    match e
    case Yield => true
    case TimerIrq => s.remain[s.current] - 1 <= 0
    case OtherIrq => s.remain[s.current] <= 0
    case _ => false
  }

  predicate LegalRun(s: State, es: seq<Event>)
    requires Defined(s)
    decreases |es|
  {
    es == [] || (Legal(s, es[0]) && LegalRun(Act(s, es[0]), es[1..]))
  }

  function Run(s: State, es: seq<Event>): (r: State)
    requires Defined(s) && LegalRun(s, es)
    ensures Defined(r)
    decreases |es|
  {
    if es == [] then s else Run(Act(s, es[0]), es[1..])
  }

  function CallCount(s: State, es: seq<Event>): nat
    requires Defined(s) && LegalRun(s, es)
    decreases |es|
  {
    if es == [] then 0 else (if Calls(s, es[0]) then 1 else 0) + CallCount(Act(s, es[0]), es[1..])
  }

  function TickCount(es: seq<Event>): nat {
    if es == [] then 0 else (if es[0] == TimerIrq then 1 else 0) + TickCount(es[1..])
  }

  /* What every run keeps */

  // The queue holds exactly the READY tasks that do not run, once each.
  ghost predicate Inv(s: State) {
    && Defined(s) && Distinct(s.queue)
    && (forall t :: t in s.status ==> t < |s.remain|)
    && s.current in s.started && (forall t :: t in s.started ==> t in s.status)
    && (forall t :: t in s.queue <==> t in s.status && t != s.current && s.status[t] == Ready)
  }

  lemma SchedulePreserves(s: State)
    requires Inv(s)
    ensures Inv(Rescheduled(s))
  {
    if s.queue != [] {
      var q := Requeued(s);
      assert s.current !in s.queue;
      assert Distinct(q) by {
        if s.status[s.current] == Ready { AppendElements(s.queue, s.current); }
      }
      assert forall t :: t in q <==> t in s.queue || (t == s.current && s.status[s.current] == Ready);
      assert q[0] == s.queue[0] && q[0] in q;
      forall t ensures t in q[1..] <==> t in q && t != q[0] {
        if t in q && t != q[0] {
          var i :| 0 <= i < |q| && q[i] == t;
          assert q[1..][i - 1] == t;
        }
      }
    }
  }

  lemma ActPreserves(s: State, e: Event)
    requires Inv(s) && Legal(s, e)
    ensures Inv(Act(s, e))
  {
    match e {
      case Yield => SchedulePreserves(s);
      case TimerIrq => SchedulePreserves(Tick(s));
      case OtherIrq => SchedulePreserves(s);
      case Exit =>
      case Spawn(t) => AppendElements(s.queue, t);
    }
  }

  lemma {:induction false} RunPreserves(s: State, es: seq<Event>)
    requires Inv(s) && LegalRun(s, es)
    ensures Inv(Run(s, es))
    decreases |es|
  {
    if es != [] {
      ActPreserves(s, es[0]);
      RunPreserves(Act(s, es[0]), es[1..]);
    }
  }

  // A finished task that has been switched out never runs again, unless its structure
  // is used for a new task.
  lemma {:induction false} FinishedStaysOut(s: State, es: seq<Event>, t: nat)
    requires Inv(s) && LegalRun(s, es) && Spawn(t) !in es
    requires t in s.status && s.status[t] == Finished
    ensures t in Run(s, es).status && Run(s, es).status[t] == Finished && t !in Run(s, es).queue
    ensures t != s.current ==> Run(s, es).current != t
    decreases |es|
  {
    if es != [] {
      ActPreserves(s, es[0]);
      FinishedStep(s, es[0], t);
      FinishedStaysOut(Act(s, es[0]), es[1..], t);
    }
  }

  lemma FinishedStep(s: State, e: Event, t: nat)
    requires Inv(s) && Legal(s, e) && t in s.status && s.status[t] == Finished && e != Spawn(t)
    ensures var r := Act(s, e); t in r.status && r.status[t] == Finished && (t != s.current ==> r.current != t)
  {
    assert t !in s.queue;
    if s.queue != [] { assert s.queue[0] in s.queue; }
  }

  // Runs can be cut in two.
  lemma {:induction false} RunSplit(s: State, es: seq<Event>, fs: seq<Event>)
    requires Defined(s) && LegalRun(s, es + fs)
    ensures LegalRun(s, es) && LegalRun(Run(s, es), fs) && Run(s, es + fs) == Run(Run(s, es), fs)
    decreases |es|
  {
    if es == [] {
      assert es + fs == fs;
    } else {
      assert (es + fs)[0] == es[0] && (es + fs)[1..] == es[1..] + fs;
      RunSplit(Act(s, es[0]), es[1..], fs);
    }
  }

  // From the moment the function of the running task returns, the task is in no queue,
  // and once it has been switched out it never runs again, whatever happens, unless its
  // structure is used for a new task.
  lemma ExitIsFinal(s: State, es: seq<Event>, fs: seq<Event>)
    requires Inv(s) && LegalRun(s, [Exit] + es + fs) && Spawn(s.current) !in es + fs
    ensures LegalRun(s, [Exit] + es) && s.current !in Run(s, [Exit] + es).queue
    ensures Run(s, [Exit] + es).current != s.current ==> Run(s, [Exit] + es + fs).current != s.current
  {
    var t, r := s.current, Act(s, Exit);
    ActPreserves(s, Exit);
    RunSplit(s, [Exit] + es, fs);
    assert ([Exit] + es)[0] == Exit && ([Exit] + es)[1..] == es;
    assert forall e :: e in es ==> e in es + fs;
    assert forall e :: e in fs ==> e in es + fs;
    FinishedStaysOut(r, es, t);
    RunPreserves(r, es);
    FinishedStaysOut(Run(r, es), fs, t);
  }

  /* Time slices */

  // Every timer tick is counted, whoever runs.
  lemma {:induction false} TicksCounted(s: State, es: seq<Event>)
    requires Inv(s) && LegalRun(s, es)
    ensures Run(s, es).ticks == s.ticks + TickCount(es)
    decreases |es|
  {
    if es != [] {
      ActPreserves(s, es[0]);
      TicksCounted(Act(s, es[0]), es[1..]);
    }
  }

  // The slice of a task changes only when it is picked, and with the ticks while it runs;
  // being switched out does not change it.
  lemma SliceKept(s: State, e: Event, t: nat)
    requires Inv(s) && Legal(s, e) && t < |s.remain| && (t == s.current || t != Act(s, e).current)
    ensures |Act(s, e).remain| == |s.remain|
    ensures Act(s, e).remain[t] == s.remain[t] - if e == TimerIrq && t == s.current then 1 else 0
  {
    if s.queue != [] { assert s.queue[0] in s.queue; }
  }

  ghost predicate NeverRuns(s: State, es: seq<Event>, t: nat)
    requires Defined(s) && LegalRun(s, es)
    decreases |es|
  {
    s.current != t && (es == [] || NeverRuns(Act(s, es[0]), es[1..], t))
  }

  lemma {:induction false} UnstartedWaits(s: State, es: seq<Event>, t: nat)
    requires Inv(s) && LegalRun(s, es) && NeverRuns(s, es, t) && t in s.queue && t !in s.started
    ensures var r := Run(s, es);
            Inv(r) && t in r.queue && t !in r.started && t < |s.remain| == |r.remain| && r.remain[t] == s.remain[t]
    decreases |es|
  {
    if es != [] {
      ActPreserves(s, es[0]);
      SliceKept(s, es[0], t);
      UnstartedWaits(Act(s, es[0]), es[1..], t);
    }
  }

  // A new task starts in task_start, which does not renew its slice: however long it
  // waits, when it is picked for the first time it has what its structure held when it
  // was created.
  lemma FirstSlice(s: State, t: nat, es: seq<Event>, e: Event)
    requires Inv(s) && Legal(s, Spawn(t)) && LegalRun(Act(s, Spawn(t)), es + [e])
    ensures LegalRun(Act(s, Spawn(t)), es)
    ensures NeverRuns(Act(s, Spawn(t)), es, t) ==>
              var r := Run(Act(s, Spawn(t)), es + [e]); |r.remain| == |s.remain| && r.remain[t] == s.remain[t]
  {
    var r := Act(s, Spawn(t));
    ActPreserves(s, Spawn(t));
    RunSplit(r, es, [e]);
    assert [e][1..] == [];
    if NeverRuns(r, es, t) {
      UnstartedWaits(r, es, t);
      UnstartedStep(Run(r, es), e, t);
    }
  }

  lemma UnstartedStep(s: State, e: Event, t: nat)
    requires Inv(s) && Legal(s, e) && t in s.queue && t !in s.started && t < |s.remain|
    ensures |Act(s, e).remain| == |s.remain| && Act(s, e).remain[t] == s.remain[t]
  {
    assert t != s.current;
  }

  lemma {:induction false} StaysStarted(s: State, es: seq<Event>, t: nat)
    requires Inv(s) && LegalRun(s, es) && Spawn(t) !in es && t in s.started
    ensures Inv(Run(s, es)) && t in Run(s, es).started
    decreases |es|
  {
    if es != [] {
      ActPreserves(s, es[0]);
      StaysStarted(Act(s, es[0]), es[1..], t);
    }
  }

  // A task that has run resumes in schedule, which gives it a full slice at every later pick.
  lemma LaterSlice(s: State, es: seq<Event>, e: Event)
    requires Inv(s) && LegalRun(s, es + [e]) && Spawn(s.current) !in es + [e]
    ensures LegalRun(s, es)
    ensures Run(s, es).current != s.current && Run(s, es + [e]).current == s.current ==>
              Run(s, es + [e]).remain[s.current] == SCHEDULER_TIME_SLICE
  {
    var t := s.current;
    RunSplit(s, es, [e]);
    assert [e][1..] == [];
    assert forall d :: d in es ==> d in es + [e];
    StaysStarted(s, es, t);
    assert e in es + [e];
  }

  // While no other task is ready, calls of schedule do nothing: the running task goes on
  // and its slice only counts the ticks.
  lemma {:induction false} AloneGoesOn(s: State, es: seq<Event>)
    requires Inv(s) && LegalRun(s, es) && s.queue == [] && forall e :: e in es ==> !e.Spawn?
    ensures var r := Run(s, es);
            r.queue == [] && r.current == s.current
            && r.remain == s.remain[s.current := s.remain[s.current] - TickCount(es)]
    decreases |es|
  {
    if es != [] {
      assert es[0] in es;
      ActPreserves(s, es[0]);
      AloneGoesOn(Act(s, es[0]), es[1..]);
    }
  }

  /* Waiting */

  // One event either moves a queued task one place forward, when it calls schedule,
  // or leaves it in place. From place 0 it moves onto the processor.
  lemma QueueMoves(s: State, e: Event, t: nat, k: nat)
    requires Inv(s) && Legal(s, e) && k < |s.queue| && s.queue[k] == t
    ensures var r := Act(s, e);
            if !Calls(s, e) then k < |r.queue| && r.queue[k] == t && r.current == s.current
            else if k == 0 then r.current == t
            else k - 1 < |r.queue| && r.queue[k - 1] == t && r.current == s.queue[0]
  {
    var u := if e == TimerIrq then Tick(s) else s;
    assert Requeued(u)[k] == t && Requeued(u)[0] == s.queue[0];
    if k > 0 { assert Requeued(u)[1..][k - 1] == t; }
  }

  // A prefix of a legal run is legal, and the rest starts where it ends.
  lemma {:induction false} Prefix(s: State, es: seq<Event>, n: nat)
    requires Defined(s) && LegalRun(s, es) && n <= |es|
    ensures LegalRun(s, es[..n])
    decreases n
  {
    if n > 0 {
      Prefix(Act(s, es[0]), es[1..], n - 1);
      assert es[..n][0] == es[0] && es[..n][1..] == es[1..][..n - 1];
    }
  }

  // FIFO service: after c <= k calls of schedule a task at place k is still waiting, c
  // places further, ...
  lemma {:induction false} WaitsInOrder(s: State, es: seq<Event>, t: nat, k: nat)
    requires Inv(s) && LegalRun(s, es) && k < |s.queue| && s.queue[k] == t
    ensures var c := CallCount(s, es); var r := Run(s, es);
            c <= k ==> k - c < |r.queue| && r.queue[k - c] == t && r.current != t
    decreases |es|
  {
    assert t in s.queue;
    if es != [] {
      ActPreserves(s, es[0]);
      QueueMoves(s, es[0], t, k);
      if !Calls(s, es[0]) {
        WaitsInOrder(Act(s, es[0]), es[1..], t, k);
      } else if k > 0 {
        WaitsInOrder(Act(s, es[0]), es[1..], t, k - 1);
      }
    }
  }

  // ... and it runs when call number k + 1 is made.
  lemma {:induction false} ServedAfterCalls(s: State, es: seq<Event>, e: Event, t: nat, k: nat)
    requires Inv(s) && LegalRun(s, es + [e]) && k < |s.queue| && s.queue[k] == t
    ensures LegalRun(s, es)
    ensures CallCount(s, es) == k && CallCount(s, es + [e]) == k + 1 ==> Run(s, es + [e]).current == t
    decreases |es|
  {
    if es == [] {
      QueueMoves(s, e, t, k);
      assert [e][1..] == [];
    } else {
      assert (es + [e])[0] == es[0] && (es + [e])[1..] == es[1..] + [e];
      ActPreserves(s, es[0]);
      QueueMoves(s, es[0], t, k);
      if !Calls(s, es[0]) {
        ServedAfterCalls(Act(s, es[0]), es[1..], e, t, k);
      } else if k > 0 {
        ServedAfterCalls(Act(s, es[0]), es[1..], e, t, k - 1);
      } else {
        Prefix(s, es + [e], |es|);
        assert (es + [e])[..|es|] == es;
      }
    }
  }

  // The ticks a task can use once it is picked: a full slice if it resumes in schedule,
  // else what its structure holds, but the first tick always counts.
  function Slice(s: State, t: nat): int {
    if t in s.started then SCHEDULER_TIME_SLICE else AtLeastOne(s, t)
  }

  function AtLeastOne(s: State, t: nat): int {
    if t < |s.remain| && s.remain[t] > 1 then s.remain[t] else 1
  }

  function Slices(s: State, ts: seq<nat>): int {
    if ts == [] then 0 else Slice(s, ts[0]) + Slices(s, ts[1..])
  }

  // Ticks that can still pass before the task at place k runs.
  function TicksLeft(s: State, k: nat): int
    requires k <= |s.queue|
  {
    AtLeastOne(s, s.current) + Slices(s, s.queue[..k])
  }

  lemma {:induction false} SlicesKept(s: State, r: State, ts: seq<nat>)
    requires forall t :: t in ts ==> Slice(r, t) == Slice(s, t)
    ensures Slices(r, ts) == Slices(s, ts)
  {
    if ts != [] { SlicesKept(s, r, ts[1..]); }
  }

  // An event that does not call schedule changes no queued slice.
  lemma StaySpends(s: State, e: Event, k: nat)
    requires Inv(s) && Legal(s, e) && k <= |s.queue| && !Calls(s, e)
    ensures k <= |Act(s, e).queue|
    ensures TicksLeft(Act(s, e), k) == TicksLeft(s, k) - if e == TimerIrq then 1 else 0
  {
    var r := Act(s, e);
    assert r.queue[..k] == s.queue[..k];
    forall t | t in s.queue[..k] ensures Slice(r, t) == Slice(s, t) { assert t in s.queue; }
    SlicesKept(s, r, s.queue[..k]);
  }

  // A call of schedule hands the slice of the first queued task to the processor.
  lemma CallSpends(s: State, e: Event, k: nat)
    requires Inv(s) && Legal(s, e) && 0 < k < |s.queue| && Calls(s, e)
    ensures k - 1 <= |Act(s, e).queue|
    ensures TicksLeft(Act(s, e), k - 1) == TicksLeft(s, k) - AtLeastOne(s, s.current)
  {
    var u := if e == TimerIrq then Tick(s) else s;
    var r := Act(s, e);
    assert r == Rescheduled(u);
    var rest := s.queue[..k][1..];
    assert Requeued(u)[1..][..k - 1] == rest;
    assert s.queue[..k][0] == s.queue[0] == r.current;
    forall t | t in rest ensures Slice(r, t) == Slice(s, t) {
      var i :| 0 <= i < |rest| && rest[i] == t;
      assert t == s.queue[i + 1] && t in s.queue;
    }
    SlicesKept(s, r, rest);
  }

  // Unless an event takes the task at place k onto the processor, it leaves it in the
  // queue, and every tick brings it nearer.
  lemma Nearer(s: State, e: Event, t: nat, k: nat) returns (m: nat)
    requires Inv(s) && Legal(s, e) && k < |s.queue| && s.queue[k] == t && !(Calls(s, e) && k == 0)
    ensures m < |Act(s, e).queue| && Act(s, e).queue[m] == t && t in Act(s, e).queue
    ensures TicksLeft(Act(s, e), m) <= TicksLeft(s, k) - if e == TimerIrq then 1 else 0
  {
    QueueMoves(s, e, t, k);
    if Calls(s, e) {
      CallSpends(s, e, k);
      m := k - 1;
    } else {
      StaySpends(s, e, k);
      m := k;
    }
  }

  lemma TicksLeftPositive(s: State, k: nat)
    requires k <= |s.queue|
    ensures TicksLeft(s, k) > 0
  {
    SlicesPositive(s, s.queue[..k]);
  }

  lemma {:induction false} ServedWithin(s: State, es: seq<Event>, t: nat, k: nat) returns (n: nat)
    requires Inv(s) && LegalRun(s, es) && k < |s.queue| && s.queue[k] == t
    requires TickCount(es) >= TicksLeft(s, k)
    ensures n <= |es| && LegalRun(s, es[..n]) && Run(s, es[..n]).current == t
    decreases |es|
  {
    TicksLeftPositive(s, k);
    ActPreserves(s, es[0]);
    if Calls(s, es[0]) && k == 0 {
      QueueMoves(s, es[0], t, k);
      n := 1;
      assert es[..1][1..] == [];
    } else {
      var m := Nearer(s, es[0], t, k);
      n := ServedWithin(Act(s, es[0]), es[1..], t, m);
      n := n + 1;
      assert es[..n][0] == es[0] && es[..n][1..] == es[1..][..n - 1];
    }
  }

  lemma {:induction false} SlicesPositive(s: State, ts: seq<nat>)
    ensures Slices(s, ts) >= |ts|
  {
    if ts != [] { SlicesPositive(s, ts[1..]); }
  }

  // Whatever happens, and whatever the structures of new tasks held, a task at place k
  // has run before TicksLeft timer ticks are over.
  lemma WaitBound(s: State, es: seq<Event>, t: nat, k: nat)
    requires Inv(s) && LegalRun(s, es) && k < |s.queue| && s.queue[k] == t
    requires TickCount(es) >= TicksLeft(s, k)
    ensures exists n :: 0 <= n <= |es| && LegalRun(s, es[..n]) && Run(s, es[..n]).current == t
  {
    var n := ServedWithin(s, es, t, k);
  }

  function Timers(n: nat): (es: seq<Event>)
    ensures |es| == n
  {
    if n == 0 then [] else [TimerIrq] + Timers(n - 1)
  }

  // A tick brings the task at place k nearer by exactly one, or onto the processor.
  lemma OneTick(s: State, t: nat, k: nat) returns (m: nat)
    requires Inv(s) && k < |s.queue| && s.queue[k] == t
    ensures Inv(Act(s, TimerIrq)) && s.current != t
    ensures if Act(s, TimerIrq).current == t then TicksLeft(s, k) == 1
            else m < |Act(s, TimerIrq).queue| && Act(s, TimerIrq).queue[m] == t
                 && TicksLeft(Act(s, TimerIrq), m) == TicksLeft(s, k) - 1
  {
    assert t in s.queue;
    ActPreserves(s, TimerIrq);
    QueueMoves(s, TimerIrq, t, k);
    m := if Calls(s, TimerIrq) then Prev(k) else k;
    if !Calls(s, TimerIrq) {
      StaySpends(s, TimerIrq, k);
    } else if k > 0 {
      CallSpends(s, TimerIrq, k);
      assert t in Act(s, TimerIrq).queue;
    }
  }

  function Prev(k: nat): nat {
    if k == 0 then 0 else k - 1
  }

  // The bound is exact: if nothing but timer ticks happens, the task runs after exactly
  // that many, and not before.
  lemma {:induction false} WaitExact(s: State, n: nat, t: nat, k: nat)
    requires Inv(s) && k < |s.queue| && s.queue[k] == t && n <= TicksLeft(s, k)
    ensures LegalRun(s, Timers(n)) && (Run(s, Timers(n)).current == t <==> n == TicksLeft(s, k))
    decreases n
  {
    TicksLeftPositive(s, k);
    var m := OneTick(s, t, k);
    if n > 0 {
      assert Timers(n)[0] == TimerIrq && Timers(n)[1..] == Timers(n - 1);
      if Act(s, TimerIrq).current != t {
        WaitExact(Act(s, TimerIrq), n - 1, t, m);
      }
    }
  }

  lemma {:induction false} SlicesBounded(s: State, ts: seq<nat>)
    requires forall t :: 0 <= t < |s.remain| ==> s.remain[t] <= SCHEDULER_TIME_SLICE
    ensures Slices(s, ts) <= |ts| * SCHEDULER_TIME_SLICE
  {
    if ts != [] { SlicesBounded(s, ts[1..]); }
  }

  // If no structure holds more than a slice, that is at most k + 1 slices.
  lemma BoundedWaiting(s: State, es: seq<Event>, t: nat, k: nat)
    requires Inv(s) && LegalRun(s, es) && k < |s.queue| && s.queue[k] == t
    requires forall u :: 0 <= u < |s.remain| ==> s.remain[u] <= SCHEDULER_TIME_SLICE
    requires TickCount(es) >= (k + 1) * SCHEDULER_TIME_SLICE
    ensures exists n :: 0 <= n <= |es| && LegalRun(s, es[..n]) && Run(s, es[..n]).current == t
  {
    SlicesBounded(s, s.queue[..k]);
    WaitBound(s, es, t, k);
  }

  /* The scheduler as the code runs it, on linked list nodes */

  class RunQueue {
    const pool: ListPool
    const tasks: nat
    var current: nat
    var remain: seq<int>
    var status: map<nat, Status>
    var started: set<nat>
    var ticks: nat
    var handlers: seq<Handler>

    ghost predicate Valid()
      reads this, pool, pool.next, pool.prev
    {
      && pool.Valid() && tasks in pool.lists
      && |remain| == tasks < pool.next.Length && |handlers| == IRQS
      && (forall h :: h in pool.lists ==> h == tasks)
      && Inv(Now())
    }

    ghost function Now(): State
      reads this, pool
      requires tasks in pool.lists
    {
      State(pool.lists[tasks], current, remain, status, started, ticks)
    }

    // scheduler_setup, and the first task started on the boot stack. The memory of the
    // task structures holds anything.
    constructor (memory: seq<int>, first: nat)
      requires first < |memory|
      ensures Valid() && Now() == State([], first, memory, map[first := Ready], {first}, 0)
      ensures handlers == seq(IRQS, _ => NoHandler)
    {
      pool := new ListPool(|memory| + 1);
      tasks := |memory|;
      current, remain, status, started, ticks := first, memory, map[first := Ready], {first}, 0;
      handlers := seq(IRQS, _ => NoHandler);
      new;
      pool.InitHead(tasks);
    }

    method Schedule()
      requires Valid()
      modifies this`current, this`remain, this`started, pool, pool.next, pool.prev
      ensures Valid() && Now() == Rescheduled(old(Now()))
    {
      SchedulePreserves(Now());
      var empty := pool.Empty(tasks);
      if !empty {
        Requeue();
        var next := PickNext();
        Resume(next);
      }
    }

    // The processor continues in the context of next: inside schedule, which renews
    // its slice, or at the start of task_start.
    method Resume(next: nat)
      requires next < |remain|
      modifies this`current, this`remain, this`started
      ensures current == next && started == old(started) + {next}
      ensures remain == if next in old(started) then old(remain)[next := SCHEDULER_TIME_SLICE] else old(remain)
    {
      current := next;
      if next in started {
        remain := remain[next := SCHEDULER_TIME_SLICE];
      }
      started := started + {next};
    }

    // A READY task goes to the tail of the queue.
    method Requeue()
      requires Valid() && pool.lists[tasks] != []
      modifies pool, pool.next, pool.prev
      ensures pool.Valid() && pool.lists == old(pool.lists)[tasks := Requeued(old(Now()))]
    {
      if status[current] == Ready {
        assert Detached(pool.lists, current);
        pool.AddTail(tasks, current);
      }
    }

    method PickNext() returns (next: nat)
      requires pool.Valid() && tasks in pool.lists && pool.lists[tasks] != []
      modifies pool, pool.next, pool.prev
      ensures next == old(pool.lists[tasks])[0]
      ensures pool.Valid() && pool.lists == old(pool.lists)[tasks := old(pool.lists[tasks])[1..]]
    {
      next := pool.First(tasks);
      pool.Remove(next, tasks);
    }

    method TaskNew(task: nat)
      requires Valid() && Legal(Now(), Spawn(task))
      modifies this`status, this`started, pool, pool.next, pool.prev
      ensures Valid() && Now() == Created(old(Now()), task)
    {
      ActPreserves(Now(), Spawn(task));
      status := status[task := Ready];
      started := started - {task};
      pool.AddTail(tasks, task);
    }

    method SetupIrqHandler(irq: nat, handler: Handler)
      requires Valid() && irq < IRQS
      modifies this`handlers
      ensures Valid() && Now() == old(Now()) && handlers == old(handlers)[irq := handler]
    {
      handlers := handlers[irq := handler];
    }

    // Registered for the interrupts IRQ_LOW to IRQ_HIGH - 1: calls the handler if there
    // is one, then comes to the preemption point.
    method IrqRawHandler(intno: nat)
      requires Valid() && IRQ_LOW <= intno < IRQ_LOW + IRQS
      modifies this`current, this`remain, this`started, this`ticks, pool, pool.next, pool.prev
      ensures Valid() && Now() == Interrupt(old(Now()), handlers[intno - IRQ_LOW] == Timer)
    {
      var handler := handlers[intno - IRQ_LOW];
      if handler == Timer {
        PitIrqHandler();
      }
      if remain[current] <= 0 {
        Schedule();
      }
    }

    method PitIrqHandler()
      requires Valid()
      modifies this`ticks, this`remain
      ensures Valid() && Now() == Tick(old(Now()))
    {
      ticks := ticks + 1;
      remain := remain[current := remain[current] - 1];
    }
  }
}
