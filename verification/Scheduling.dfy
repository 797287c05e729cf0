/** The round-robin scheduler (src/multitasking/scheduler.c) as a state machine over the list of
    tasks: timer ticks, task creation and task exit. */
module Scheduling {
  import opened Outcomes
  import opened Lists

  /** `struct Registers` (src/interrupts/idt.h). */
  datatype Registers = Registers(
    r15: nat, r14: nat, r13: nat, r12: nat, r11: nat, r10: nat, r9: nat, r8: nat,
    rbp: nat, rdi: nat, rsi: nat, rdx: nat, rcx: nat, rbx: nat, rax: nat,
    rip: nat, cs: nat, flags: nat, rsp: nat, ss: nat)

  const ZERO_REGISTERS := Registers(0, 0, 0, 0, 0, 0, 0, 0, 0, 0, 0, 0, 0, 0, 0, 0, 0, 0, 0, 0)

  const QUANTUM: nat := 10
  const PIDS: nat := 256 // pids are 8-bit

  /** One `ProcessFrame`; `id` counts creations and tells frames apart whatever their pids. */
  datatype Task = Task(id: nat, pid: nat, registers: Registers, quanta: nat, invalid: bool)

  /** `current`: null, the sentinel `prochead`, or a listed task. */
  datatype Cursor = Null | Sentinel | At(index: nat)

  /** `started` is set by `MarkSchedulingActive`. */
  datatype Sched = Sched(tasks: seq<Task>, current: Cursor, highestPid: nat, created: nat, started: bool)

  const START := Sched([], Null, 1, 0, false)

  /** The position at which `TerminateTask` stops, or the length if no task has the pid. */
  function FirstPid(tasks: seq<Task>, pid: nat, i: nat): (k: nat)
    requires i <= |tasks|
    ensures i <= k <= |tasks|
    ensures forall j :: i <= j < k ==> tasks[j].pid != pid
    ensures k < |tasks| ==> tasks[k].pid == pid
    decreases |tasks| - i
  {
    if i == |tasks| || tasks[i].pid == pid then i else FirstPid(tasks, pid, i + 1)
  }

  // ---- the three steps

  /** A tick, first part: save the registers of the running task, if one runs. */
  function Save(s: Sched, stack: Registers): Sched {
    match s.current
    case At(i) => if i < |s.tasks| then s.(tasks := s.tasks[i := s.tasks[i].(registers := stack)]) else s
    case _ => if s.tasks == [] then s else s.(current := At(0))
  }

  /** Second part: a task marked invalid is unlinked by pid and the list is resumed at its head. */
  function Reap(s: Sched): Outcome<Sched>
    requires s.current.At? && s.current.index < |s.tasks|
  {
    var i := s.current.index;
    if !s.tasks[i].invalid then Done(s)
    else
      var k := FirstPid(s.tasks, s.tasks[i].pid, 0);
      if k == |s.tasks| then Fault
      else
        var rest := Without(s.tasks, k);
        Done(s.(tasks := rest, current := if rest == [] then Sentinel else At(0)))
  }

  /** Third part: charge the quantum and move on when it is used up. */
  function Charge(s: Sched): (r: Sched)
    requires s.current.At? && s.current.index < |s.tasks|
    ensures |r.tasks| == |s.tasks| && r.current.At? && r.current.index < |r.tasks|
  {
    var i := s.current.index;
    if s.tasks[i].quanta == 0 then
      var j := if i + 1 < |s.tasks| then i + 1 else 0;
      Spend(s.(tasks := s.tasks[i := s.tasks[i].(quanta := QUANTUM)], current := At(j)))
    else Spend(s)
  }

  /** The 8-bit decrement of the current task's quantum. */
  function Spend(s: Sched): (r: Sched)
    requires s.current.At? && s.current.index < |s.tasks|
    ensures |r.tasks| == |s.tasks| && r.current == s.current
  {
    var j := s.current.index;
    s.(tasks := s.tasks[j := s.tasks[j].(quanta := (s.tasks[j].quanta + 255) % 256)])
  }

  /** `TaskSwitch`: the new state and the registers that the interrupt returns to. */
  function Tick(s: Sched, stack: Registers): Outcome<(Sched, Registers)> {
    var saved := Save(s, stack);
    if !saved.current.At? || saved.current.index >= |saved.tasks| then Done((saved, stack))
    else
      var reaped :- Reap(saved);
      if !reaped.current.At? || reaped.current.index >= |reaped.tasks| then Done((reaped, stack))
      else
        var next := Charge(reaped);
        Done((next, next.tasks[next.current.index].registers))
  }

  /** `IntAddTask`: the frame comes zeroed from the heap, so its general registers are zero and it is
      not invalid; it is put in front of the list. */
  function NewTask(s: Sched, start: nat, stackTop: nat): Task {
    Task(s.created, s.highestPid,
         ZERO_REGISTERS.(cs := 0x08, rip := start, ss := 0x10, rsp := stackTop, flags := 0x202), QUANTUM, false)
  }

  /** The registers a task starts with: it begins at `start` on the given stack, in kernel segments, with interrupts on
      (bit 9 of the flags), and with all general registers zero. */
  ghost predicate StartsAt(r: Registers, start: nat, stack: nat) {
    && r.rip == start && r.rsp == stack && r.cs == 0x08 && r.ss == 0x10 && r.flags == 0x202
    && r.r15 == 0 && r.r14 == 0 && r.r13 == 0 && r.r12 == 0 && r.r11 == 0 && r.r10 == 0 && r.r9 == 0 && r.r8 == 0
    && r.rbp == 0 && r.rdi == 0 && r.rsi == 0 && r.rdx == 0 && r.rcx == 0 && r.rbx == 0 && r.rax == 0
  }

  lemma NewTaskStarts(s: Sched, start: nat, stack: nat)
    ensures var t := NewTask(s, start, stack);
            StartsAt(t.registers, start, stack) && t.quanta == 10 && !t.invalid && t.pid == s.highestPid && t.id == s.created
  {
  }

  function AddTask(s: Sched, start: nat, stackTop: nat): Sched {
    Sched([NewTask(s, start, stackTop)] + s.tasks,
          if s.current.At? then At(s.current.index + 1) else s.current,
          (s.highestPid + 1) % PIDS, s.created + 1, s.started)
  }

  /** `ProcessExit` writes through `current`; the exception handler panics first when it is null, and for every
      exception before scheduling has started. */
  function MarkInvalid(s: Sched, exception: bool): Outcome<Sched> {
    if exception && !s.started then Panic
    else
      match s.current
      case Null => if exception then Panic else Fault
      case Sentinel => Done(s)
      case At(i) => if i < |s.tasks| then Done(s.(tasks := s.tasks[i := s.tasks[i].(invalid := true)])) else Done(s)
  }

  /** A creation carries what became of its memory: the stack page, or the way `malloc` or `PageAlloc` ended. */
  datatype Event = TimerTick(stack: Registers) | Spawn(start: nat, memory: Outcome<nat>) | Exit(exception: bool) | Activate

  function Step(s: Sched, e: Event): Outcome<Sched> {
    match e
    case TimerTick(stack) =>
      var (s', _) :- Tick(s, stack);
      Done(s')
    case Spawn(start, memory) =>
      var stack :- memory;
      Done(AddTask(s, start, stack))
    case Exit(exception) => MarkInvalid(s, exception)
    case Activate => Done(s.(started := true))
  }

  function Run(s: Sched, events: seq<Event>): Outcome<Sched>
    decreases |events|
  {
    if events == [] then Done(s)
    else
      var s' :- Run(s, events[..|events| - 1]);
      Step(s', events[|events| - 1])
  }

  // ---- every run keeps the cursor on a listed task

  ghost predicate CursorOk(s: Sched) {
    s.current.At? ==> s.current.index < |s.tasks|
  }

  function PidOf(id: nat): nat {
    (1 + id) % PIDS
  }

  /** Creation order, newest first; the pid is the creation count in 8 bits. */
  ghost predicate IdsOk(s: Sched) {
    && s.highestPid == PidOf(s.created)
    && (forall i :: 0 <= i < |s.tasks| ==> s.tasks[i].id < s.created && s.tasks[i].pid == PidOf(s.tasks[i].id))
    && (forall i, j :: 0 <= i < j < |s.tasks| ==> s.tasks[i].id > s.tasks[j].id)
  }

  ghost predicate Base(s: Sched) {
    CursorOk(s) && IdsOk(s)
  }

  lemma SaveBase(s: Sched, stack: Registers)
    requires Base(s)
    ensures Base(Save(s, stack))
    ensures Save(s, stack).current.At? <==> s.tasks != []
  {
    hide PidOf;
    if s.current.At? {
      assert s.tasks != [];
    }
  }

  lemma ReapBase(s: Sched)
    requires Base(s) && s.current.At?
    ensures Reap(s).Done? && Base(Reap(s).value)
  {
    hide PidOf;
    var i := s.current.index;
    if s.tasks[i].invalid {
      var k := FirstPid(s.tasks, s.tasks[i].pid, 0);
      assert k <= i;
      var rest := Without(s.tasks, k);
    }
  }

  lemma ChargeBase(s: Sched)
    requires Base(s) && s.current.At?
    ensures Base(Charge(s))
  {
    hide PidOf;
  }

  lemma TickBase(s: Sched, stack: Registers)
    requires Base(s)
    ensures Tick(s, stack).Done? && Base(Tick(s, stack).value.0)
  {
    hide Save, Reap, Charge, IdsOk;
    SaveBase(s, stack);
    var saved := Save(s, stack);
    if saved.current.At? {
      ReapBase(saved);
      if Reap(saved).value.current.At? {
        ChargeBase(Reap(saved).value);
      }
    }
  }

  lemma AddBase(s: Sched, start: nat, top: nat)
    requires Base(s)
    ensures Base(AddTask(s, start, top))
  {
  }

  lemma StepBase(s: Sched, e: Event)
    requires Base(s)
    ensures Step(s, e).Done? ==> Base(Step(s, e).value)
    ensures Step(s, e).Fault? <==> (s.current.Null? && e == Exit(false)) || (e.Spawn? && e.memory.Fault?)
    ensures Step(s, e).Panic? <==> (e == Exit(true) && (s.current.Null? || !s.started)) || (e.Spawn? && e.memory.Panic?)
  {
    match e
    case TimerTick(stack) =>
      hide Tick, Base;
      TickBase(s, stack);
    case Spawn(start, memory) =>
      hide AddTask, Base;
      if memory.Done? {
        AddBase(s, start, memory.value);
      }
    case Exit(_) =>
    case Activate =>
  }

  /** The event can follow a null pointer in the state. */
  ghost predicate Faulty(s: Sched, e: Event) {
    (s.current.Null? && e == Exit(false)) || (e.Spawn? && e.memory.Fault?)
  }

  /** In every run, with any number of creations, `current` stays null, the sentinel or a listed task,
      so `TerminateTask` always finds its target before the end of the list; the only null pointers
      ever followed are an exit while `current` is still null and the one inside `malloc`. */
  lemma {:induction false} RunBase(events: seq<Event>)
    ensures Run(START, events).Done? ==> Base(Run(START, events).value)
    ensures Run(START, events).Fault? ==>
              exists n: nat :: n < |events| && Run(START, events[..n]).Done? && Faulty(Run(START, events[..n]).value, events[n])
    decreases |events|
  {
    if events == [] {
      assert Base(START);
    } else {
      hide Step, Base, Faulty;
      var last := |events| - 1;
      var init, e := events[..last], events[last];
      RunBase(init);
      if Run(START, init).Done? {
        StepFaulty(Run(START, init).value, e);
      } else if Run(START, init).Fault? {
        var n: nat :| n < |init| && Run(START, init[..n]).Done? && Faulty(Run(START, init[..n]).value, init[n]);
        assert init[..n] == events[..n];
      }
    }
  }

  lemma StepFaulty(s: Sched, e: Event)
    requires Base(s)
    ensures Step(s, e).Done? ==> Base(Step(s, e).value)
    ensures Step(s, e).Fault? <==> Faulty(s, e)
  {
    hide Step, Base;
    StepBase(s, e);
  }

  // ---- lifecycle while pids are unique

  /** At most 256 frames were ever created, so pids are distinct; only the running task can be marked
      invalid; tasks that wait have a full quantum and the running one 0 to 9 ticks left. */
  ghost predicate Orderly(s: Sched) {
    && Base(s) && s.created <= PIDS
    && (forall i :: 0 <= i < |s.tasks| && s.tasks[i].invalid ==> s.current == At(i))
    && (forall i :: 0 <= i < |s.tasks| && s.current != At(i) ==> s.tasks[i].quanta == QUANTUM)
    && (s.current.At? ==> s.tasks[s.current.index].quanta < QUANTUM)
  }

  lemma DistinctPids(s: Sched, i: nat, j: nat)
    requires IdsOk(s) && s.created <= PIDS && i < |s.tasks| && j < |s.tasks| && i != j
    ensures s.tasks[i].pid != s.tasks[j].pid
  {
    var a, b := s.tasks[i].id, s.tasks[j].id;
    assert a != b && a < PIDS && b < PIDS;
  }

  /** The running task is marked invalid. */
  ghost predicate Exits(s: Sched)
    requires CursorOk(s)
  {
    s.current.At? && s.tasks[s.current.index].invalid
  }

  /** A tick in an orderly state: the invalid task, and only it, leaves the list; every other task
      keeps its place, its pid and its marks; and the task then running is valid and has lost one
      tick, unless the list is empty. */
  ghost predicate TickOutcome(s: Sched, s': Sched)
    requires CursorOk(s) && CursorOk(s')
  {
    && (Exits(s) ==>
          && Ids(s'.tasks) == Ids(Without(s.tasks, s.current.index))
          && s'.current == (if |s.tasks| == 1 then Sentinel else At(0)))
    && (!Exits(s) ==> Ids(s'.tasks) == Ids(s.tasks))
    && (s'.current.At? ==> !s'.tasks[s'.current.index].invalid)
    && (s'.tasks != [] ==> s'.current.At?)
  }

  ghost function Ids(tasks: seq<Task>): (r: seq<nat>)
    ensures |r| == |tasks| && forall i :: 0 <= i < |r| ==> r[i] == tasks[i].id
  {
    seq(|tasks|, i requires 0 <= i < |tasks| => tasks[i].id)
  }

  /** Before the charge: nobody waiting is invalid or short of quantum. */
  ghost predicate Ready(s: Sched) {
    && Base(s) && s.created <= PIDS && s.current.At?
    && (forall i :: 0 <= i < |s.tasks| ==> !s.tasks[i].invalid)
    && (forall i :: 0 <= i < |s.tasks| && s.current != At(i) ==> s.tasks[i].quanta == QUANTUM)
    && s.tasks[s.current.index].quanta <= QUANTUM
  }

  lemma SaveOrderly(s: Sched, stack: Registers)
    requires Orderly(s) && s.tasks != []
    ensures var r := Save(s, stack);
            && Base(r) && r.created <= PIDS && r.current.At? && Ids(r.tasks) == Ids(s.tasks)
            && (s.current.At? ==> r.current == s.current)
            && (forall i :: 0 <= i < |s.tasks| ==> r.tasks[i].invalid == s.tasks[i].invalid && r.tasks[i].quanta == s.tasks[i].quanta)
            && (r.tasks[r.current.index].invalid ==> s.current.At?)
            && (!r.tasks[r.current.index].invalid ==> Ready(r))
  {
    hide IdsOk;
    SaveBase(s, stack);
  }

  /** Reaping an invalid running task takes out exactly that task. */
  lemma ReapExact(s: Sched, i: nat)
    requires Base(s) && s.created <= PIDS && s.current == At(i) && s.tasks[i].invalid
    ensures Reap(s) == Done(s.(tasks := Without(s.tasks, i), current := if |s.tasks| == 1 then Sentinel else At(0)))
  {
    hide PidOf;
    var k := FirstPid(s.tasks, s.tasks[i].pid, 0);
    if k != i {
      assert k < |s.tasks|;
      DistinctPids(s, k, i);
    }
  }

  lemma RemoveIds(t: seq<Task>, u: seq<Task>, i: nat)
    requires Ids(t) == Ids(u) && i < |t|
    ensures |t| == |u| && Ids(Without(t, i)) == Ids(Without(u, i))
  {
    assert |t| == |Ids(t)| == |Ids(u)| == |u|;
    forall j | 0 <= j < |t| ensures t[j].id == u[j].id {
      assert t[j].id == Ids(t)[j] == Ids(u)[j] == u[j].id;
    }
  }

  /** With only the running task invalid, the others are ready once it is gone. */
  lemma ReadyWithout(s: Sched, i: nat)
    requires Base(s) && s.created <= PIDS && s.current == At(i) && |s.tasks| > 1
    requires forall j :: 0 <= j < |s.tasks| && j != i ==> !s.tasks[j].invalid && s.tasks[j].quanta == QUANTUM
    requires Base(s.(tasks := Without(s.tasks, i), current := At(0)))
    ensures Ready(s.(tasks := Without(s.tasks, i), current := At(0)))
    ensures Without(s.tasks, i)[0].quanta == QUANTUM
  {
    hide IdsOk;
    var rest := Without(s.tasks, i);
    forall j | 0 <= j < |rest| ensures !rest[j].invalid && rest[j].quanta == QUANTUM {
      assert rest[j] == s.tasks[if j < i then j else j + 1];
    }
  }

  ghost predicate Reaped(s: Sched, r: Sched)
    requires CursorOk(s)
  {
    && Base(r)
    && (r.current.At? ==> Ready(r))
    && TickOutcome(s, r)
    && (!r.current.At? ==> r.tasks == [])
    && (Exits(s) && r.current.At? ==> r.tasks[r.current.index].quanta == QUANTUM)
  }

  lemma ReapExit(s: Sched, saved: Sched)
    requires Orderly(s) && Exits(s) && Base(saved) && saved.created <= PIDS && saved.current == s.current
    requires Ids(saved.tasks) == Ids(s.tasks)
    requires forall i :: 0 <= i < |saved.tasks| && i < |s.tasks| ==>
               saved.tasks[i].invalid == s.tasks[i].invalid && saved.tasks[i].quanta == s.tasks[i].quanta
    ensures Reap(saved).Done? && Reaped(s, Reap(saved).value)
  {
    var i := s.current.index;
    assert |saved.tasks| == |Ids(saved.tasks)| == |s.tasks|;
    ReapBase(saved);
    ReapExact(saved, i);
    RemoveIds(saved.tasks, s.tasks, i);
    hide IdsOk, Reap, Ids;
    if |saved.tasks| > 1 {
      ReadyWithout(saved, i);
    }
    hide Ready, Without;
  }

  lemma ReapOrderly(s: Sched, stack: Registers)
    requires Orderly(s) && s.tasks != []
    ensures Save(s, stack).current.At? && CursorOk(Save(s, stack))
    ensures Reap(Save(s, stack)).Done? && Reaped(s, Reap(Save(s, stack)).value)
  {
    SaveOrderly(s, stack);
    hide IdsOk, Save, Reap;
    var saved := Save(s, stack);
    if Exits(s) {
      hide Ready, TickOutcome, Reaped;
      ReapExit(s, saved);
    } else {
      assert |saved.tasks| == |Ids(saved.tasks)| == |s.tasks|;
      ReapNothing(saved);
    }
  }

  lemma ReapNothing(s: Sched)
    requires s.current.At? && s.current.index < |s.tasks| && !s.tasks[s.current.index].invalid
    ensures Reap(s) == Done(s)
  {
  }

  lemma ChargeOrderly(s: Sched)
    requires Ready(s)
    ensures var r := Charge(s);
            && Orderly(r) && Ids(r.tasks) == Ids(s.tasks) && !r.tasks[r.current.index].invalid
            && (|s.tasks| > 1 && s.tasks[s.current.index].quanta > 0 ==> r.current == s.current)
  {
    ChargeBase(s);
  }

  lemma TickOrderly(s: Sched, stack: Registers)
    requires Orderly(s)
    ensures Tick(s, stack).Done?
    ensures Orderly(Tick(s, stack).value.0) && TickOutcome(s, Tick(s, stack).value.0)
  {
    if s.tasks != [] {
      ReapOrderly(s, stack);
      hide Save, Reap, Charge, IdsOk;
      var r := Reap(Save(s, stack)).value;
      if r.current.At? {
        ChargeOrderly(r);
        hide Ready, TickOutcome, Orderly;
        ChargeMoves(s, r, Charge(r));
      }
    }
  }

  /** Charging does not move the head of the list away from a task that has its full quantum. */
  lemma ChargeMoves(s: Sched, r: Sched, c: Sched)
    requires CursorOk(s) && CursorOk(r) && CursorOk(c) && TickOutcome(s, r) && r.current.At? && c == Charge(r)
    requires Ids(c.tasks) == Ids(r.tasks) && !c.tasks[c.current.index].invalid && Ready(r)
    requires Exits(s) ==> r.tasks[r.current.index].quanta == QUANTUM
    ensures TickOutcome(s, c)
  {
    if Exits(s) {
      assert r.current == At(0) && |r.tasks| == |Ids(r.tasks)| == |s.tasks| - 1;
      assert c.current == At(0);
    }
  }

  lemma SpawnOrderly(s: Sched, start: nat, top: nat)
    requires Orderly(s) && s.created < PIDS
    ensures Orderly(AddTask(s, start, top))
  {
    AddBase(s, start, top);
    hide IdsOk;
    var r := AddTask(s, start, top);
    forall i | 0 <= i < |r.tasks|
      ensures r.tasks[i].invalid ==> r.current == At(i)
      ensures r.current != At(i) ==> r.tasks[i].quanta == QUANTUM
    {
      assert i > 0 ==> r.tasks[i] == s.tasks[i - 1];
    }
  }

  lemma ExitOrderly(s: Sched, exception: bool)
    requires Orderly(s) && MarkInvalid(s, exception).Done?
    ensures Orderly(MarkInvalid(s, exception).value)
  {
    hide PidOf;
  }

  lemma StepOrderly(s: Sched, e: Event)
    requires Orderly(s)
    ensures Step(s, e).Done? && Step(s, e).value.created <= PIDS ==> Orderly(Step(s, e).value)
  {
    match e
    case TimerTick(stack) =>
      hide Tick, TickOutcome, Orderly;
      TickOrderly(s, stack);
    case Spawn(start, memory) =>
      if s.created < PIDS && memory.Done? {
        SpawnOrderly(s, start, memory.value);
      }
    case Exit(exception) =>
      hide Orderly, MarkInvalid;
      if MarkInvalid(s, exception).Done? {
        ExitOrderly(s, exception);
      }
    case Activate =>
      hide PidOf;
  }

  lemma StepCreated(s: Sched, e: Event)
    requires Base(s)
    ensures Step(s, e).Done? ==> Step(s, e).value.created >= s.created
  {
    hide IdsOk;
    if e.TimerTick? {
      TickBase(s, e.stack);
    }
  }

  /** In every run with at most 256 creations, whatever the order of ticks, creations and exits: pids
      are distinct, at most the running task is invalid, waiting tasks have a full quantum and the
      running one 0 to 9 ticks, so the 8-bit decrement never underflows. */
  lemma {:induction false} RunOrderly(events: seq<Event>)
    ensures Run(START, events).Done? && Run(START, events).value.created <= PIDS ==> Orderly(Run(START, events).value)
    decreases |events|
  {
    if events == [] {
      assert Orderly(START);
    } else {
      hide Step, Orderly, Base;
      var init := events[..|events| - 1];
      RunBase(init);
      RunOrderly(init);
      if Run(START, init).Done? {
        StepCreated(Run(START, init).value, events[|events| - 1]);
        if Run(START, init).value.created <= PIDS {
          StepOrderly(Run(START, init).value, events[|events| - 1]);
        }
      }
    }
  }

  // ---- more than 256 creations

  /** Whatever the number of creations, the tick after an exit unlinks the task that exited if and only
      if no task in front of it in the list has the same pid. */
  lemma ReapsCurrentIff(s: Sched, i: nat)
    requires Base(s) && s.current == At(i) && s.tasks[i].invalid
    ensures Reap(s).Done?
    ensures Ids(Reap(s).value.tasks) == Ids(Without(s.tasks, i))
            <==> forall j :: 0 <= j < i ==> s.tasks[j].pid != s.tasks[i].pid
  {
    hide PidOf;
    ReapBase(s);
    var k := FirstPid(s.tasks, s.tasks[i].pid, 0);
    assert k <= i;
    if k < i {
      assert Ids(Without(s.tasks, k))[k] == s.tasks[k + 1].id;
      assert Ids(Without(s.tasks, i))[k] == s.tasks[k].id;
    }
  }

  function Spawns(n: nat): seq<Event> {
    seq(n, i => Spawn(0, Done(0)))
  }

  lemma RunOne(s: Sched, events: seq<Event>, e: Event)
    requires Run(s, events).Done?
    ensures Run(s, events + [e]) == Step(Run(s, events).value, e)
  {
    assert (events + [e])[..|events|] == events;
  }

  /** One task starts to run, then n more are created. */
  lemma {:induction false} SpawnMany(n: nat)
    ensures var o := Run(START, [Spawn(0, Done(0)), TimerTick(ZERO_REGISTERS)] + Spawns(n));
            && o.Done? && o.value.created == n + 1 && |o.value.tasks| == n + 1 && o.value.current == At(n)
            && o.value.tasks[n].id == 0 && (n > 0 ==> o.value.tasks[0].id == n)
            && Base(o.value)
  {
    var boot := [Spawn(0, Done(0)), TimerTick(ZERO_REGISTERS)];
    if n == 0 {
      assert boot + Spawns(0) == ([] + [Spawn(0, Done(0))]) + [TimerTick(ZERO_REGISTERS)];
      RunOne(START, [], Spawn(0, Done(0)));
      RunOne(START, [] + [Spawn(0, Done(0))], TimerTick(ZERO_REGISTERS));
    } else {
      SpawnMany(n - 1);
      assert boot + Spawns(n) == (boot + Spawns(n - 1)) + [Spawn(0, Done(0))];
      RunOne(START, boot + Spawns(n - 1), Spawn(0, Done(0)));
      AddBase(Run(START, boot + Spawns(n - 1)).value, 0, 0);
      hide IdsOk;
    }
  }

  /** The bound is sharp: with 257 creations an exit can unlink the wrong task. The first task exits,
      the newest one, which got the same pid, disappears, and the exited task stays in the list. */
  lemma WrongVictim() returns (s: Sched)
    ensures Run(START, [Spawn(0, Done(0)), TimerTick(ZERO_REGISTERS)] + Spawns(256) + [Exit(false)]) == Done(s)
    ensures |s.tasks| == 257 && s.current == At(256)
    ensures s.tasks[256].id == 0 && s.tasks[256].invalid && s.tasks[0].id == 256
    ensures Reap(s).Done? && Ids(Reap(s).value.tasks) == Ids(Without(s.tasks, 0))
  {
    SpawnMany(256);
    var before := [Spawn(0, Done(0)), TimerTick(ZERO_REGISTERS)] + Spawns(256);
    RunOne(START, before, Exit(false));
    hide Run, Spawns;
    s := Run(START, before + [Exit(false)]).value;
    assert s.tasks[0].pid == s.tasks[256].pid;
    assert FirstPid(s.tasks, s.tasks[256].pid, 0) == 0;
  }
}
