/** What a timer tick does, case by case (src/multitasking/scheduler.c), and what becomes of a task that exits. */
module Switching {
  import opened Outcomes
  import opened Lists
  import opened Scheduling

  /** The first of the waiting tasks runs: the interrupt returns to its registers, and it has nine ticks left. */
  ghost predicate Starts(waiting: seq<Task>, s': Sched, out: Registers)
    requires waiting != []
  {
    s'.current == At(0) && s'.tasks == waiting[0 := waiting[0].(quanta := 9)] && out == waiting[0].registers
  }

  /** The i-th task was interrupted and is not about to exit. While it has ticks left it goes on where it was. Otherwise it
      waits with the interrupted registers and a full quantum, and the next task in the list, or the first one, runs. */
  ghost predicate Continues(tasks: seq<Task>, i: nat, stack: Registers, s': Sched, out: Registers)
    requires i < |tasks|
  {
    var t := tasks[i].(registers := stack);
    if t.quanta > 0 then
      s'.current == At(i) && s'.tasks == tasks[i := t.(quanta := t.quanta - 1)] && out == stack
    else if |tasks| == 1 then
      s'.current == At(0) && s'.tasks == [t.(quanta := 9)] && out == stack
    else
      var j := if i + 1 < |tasks| then i + 1 else 0;
      && s'.current == At(j)
      && s'.tasks == tasks[i := t.(quanta := 10)][j := tasks[j].(quanta := 9)]
      && out == tasks[j].registers
  }

  /** A tick, from the state and the interrupted registers to the next state and the registers returned to. */
  ghost predicate Switched(s: Sched, stack: Registers, s': Sched, out: Registers)
    requires CursorOk(s)
  {
    && s'.highestPid == s.highestPid && s'.created == s.created && s'.started == s.started
    && if s.tasks == [] then s'.tasks == [] && s'.current == s.current && out == stack
       else
         match s.current
         case At(i) =>
           if !s.tasks[i].invalid then Continues(s.tasks, i, stack, s', out)
           else if |s.tasks| == 1 then s'.tasks == [] && s'.current == Sentinel && out == stack
           else Starts(Without(s.tasks, i), s', out)
         case _ => Starts(s.tasks, s', out)
  }

  /** With nothing to run a tick returns to the interrupted registers and changes nothing, in every state. */
  lemma IdleTick(s: Sched, stack: Registers)
    requires s.tasks == [] && CursorOk(s)
    ensures Tick(s, stack) == Done((s, stack))
  {
  }

  lemma ChargeFull(s: Sched)
    requires s.current == At(0) && s.tasks != [] && s.tasks[0].quanta == 10
    ensures Charge(s) == s.(tasks := s.tasks[0 := s.tasks[0].(quanta := 9)])
  {
  }

  lemma TickStarts(s: Sched, stack: Registers)
    requires Orderly(s) && s.tasks != [] && !s.current.At?
    ensures Tick(s, stack).Done? && Switched(s, stack, Tick(s, stack).value.0, Tick(s, stack).value.1)
  {
    hide IdsOk;
    assert !s.tasks[0].invalid && s.tasks[0].quanta == 10;
    var saved := Save(s, stack);
    assert saved == s.(current := At(0));
    ReapNothing(saved);
    ChargeFull(saved);
  }

  lemma TickExits(s: Sched, stack: Registers)
    requires Orderly(s) && Exits(s)
    ensures Tick(s, stack).Done? && Switched(s, stack, Tick(s, stack).value.0, Tick(s, stack).value.1)
  {
    var i := s.current.index;
    var saved := Save(s, stack);
    SaveBase(s, stack);
    ReapExact(saved, i);
    hide IdsOk, Reap;
    var rest := Without(s.tasks, i);
    assert Without(saved.tasks, i) == rest;
    if |s.tasks| > 1 {
      var first := if i == 0 then 1 else 0;
      assert rest[0] == s.tasks[first] && s.current != At(first);
      ChargeFull(Reap(saved).value);
    }
  }

  lemma TickContinues(s: Sched, stack: Registers)
    requires Orderly(s) && s.current.At? && !Exits(s)
    ensures Tick(s, stack).Done? && Switched(s, stack, Tick(s, stack).value.0, Tick(s, stack).value.1)
  {
    hide IdsOk;
    var i := s.current.index;
    var saved := Save(s, stack);
    ReapNothing(saved);
    hide Reap;
    var c := Charge(saved);
    assert Tick(s, stack) == Done((c, c.tasks[c.current.index].registers));
    if s.tasks[i].quanta == 0 && |s.tasks| > 1 {
      var j := if i + 1 < |s.tasks| then i + 1 else 0;
      assert s.current != At(j) && s.tasks[j].quanta == 10;
    }
  }

  /** Every tick in an orderly state is one of these cases. */
  lemma TickSwitches(s: Sched, stack: Registers)
    requires Orderly(s)
    ensures Tick(s, stack).Done? && Switched(s, stack, Tick(s, stack).value.0, Tick(s, stack).value.1)
  {
    hide Switched, Tick;
    if s.tasks == [] {
      NothingSwitched(s, stack);
    } else if !s.current.At? {
      TickStarts(s, stack);
    } else if Exits(s) {
      TickExits(s, stack);
    } else {
      TickContinues(s, stack);
    }
  }

  lemma NothingSwitched(s: Sched, stack: Registers)
    requires s.tasks == [] && CursorOk(s)
    ensures Tick(s, stack).Done? && Switched(s, stack, Tick(s, stack).value.0, Tick(s, stack).value.1)
  {
    IdleTick(s, stack);
  }

  // ---- an exit and the next tick

  /** The task with the id is at `current` and marked. */
  ghost predicate Leaving(s: Sched, id: nat) {
    s.current.At? && s.current.index < |s.tasks| && s.tasks[s.current.index].invalid && s.tasks[s.current.index].id == id
  }

  ghost predicate NoTick(events: seq<Event>) {
    forall i :: 0 <= i < |events| ==> !events[i].TimerTick?
  }

  /** Nothing but a tick takes the mark back or moves `current` to another task. */
  lemma {:induction false} StaysLeaving(s: Sched, events: seq<Event>, id: nat)
    requires Leaving(s, id) && NoTick(events) && Run(s, events).Done?
    ensures Leaving(Run(s, events).value, id)
    decreases |events|
  {
    if events != [] {
      var init, e := events[..|events| - 1], events[|events| - 1];
      StaysLeaving(s, init, id);
      assert !e.TimerTick?;
      hide Run, NewTask;
    }
  }

  lemma {:induction false} RunConcat(s: Sched, a: seq<Event>, b: seq<Event>)
    ensures Run(s, a + b) ==
              match Run(s, a)
              case Done(s1) => Run(s1, b)
              case Panic => Panic
              case Fault => Fault
    decreases |b|
  {
    hide Step;
    if b == [] {
      assert a + b == a;
    } else {
      assert (a + b)[..|a + b| - 1] == a + b[..|b| - 1];
      RunConcat(s, a, b[..|b| - 1]);
    }
  }

  /** An exit of a running task that does not end in the handler's panic marks it. */
  lemma ExitMarks(s: Sched, exception: bool)
    requires CursorOk(s) && s.current.At? && (exception ==> s.started)
    ensures Step(s, Exit(exception)).Done? && Leaving(Step(s, Exit(exception)).value, s.tasks[s.current.index].id)
  {
  }

  /** In every run: a task exits, anything but a tick happens, then a tick. If at most 256 tasks were created by then, that
      tick takes out exactly the task that exited, and all others stay in order. */
  lemma ExitThenTick(events: seq<Event>, exception: bool, between: seq<Event>, stack: Registers)
    requires Run(START, events).Done? && Run(START, events).value.current.At?
    requires NoTick(between) && Run(START, events + [Exit(exception)] + between).Done?
    requires Run(START, events + [Exit(exception)] + between).value.created <= 256
    ensures CursorOk(Run(START, events).value)
    ensures var s := Run(START, events).value;
            var id := s.tasks[s.current.index].id;
            var before := Run(START, events + [Exit(exception)] + between).value;
            var o := Run(START, events + [Exit(exception)] + between + [TimerTick(stack)]);
            && Leaving(before, id) && o.Done?
            && Ids(o.value.tasks) == Ids(Without(before.tasks, before.current.index))
            && (forall i :: 0 <= i < |o.value.tasks| ==> o.value.tasks[i].id != id)
  {
    hide Run, Step, Ids, Base, Orderly;
    RunBase(events);
    var s := Run(START, events).value;
    BaseCursor(s);
    var id := s.tasks[s.current.index].id;
    var left := events + [Exit(exception)];
    RunOne(START, events, Exit(exception));
    RunConcat(START, left, between);
    StillRuns(START, left, between);
    ExitDone(s, exception);
    ExitMarks(s, exception);
    StaysLeaving(Step(s, Exit(exception)).value, between, id);
    var before := Run(START, left + between).value;
    RunOrderly(left + between);
    RunOne(START, left + between, TimerTick(stack));
    TickTakesOut(before, stack, id);
  }

  lemma StillRuns(s: Sched, a: seq<Event>, b: seq<Event>)
    requires Run(s, a + b).Done?
    ensures Run(s, a).Done?
  {
    RunConcat(s, a, b);
    hide Run;
  }

  lemma BaseCursor(s: Sched)
    requires Base(s)
    ensures CursorOk(s)
  {
  }

  lemma ExitDone(s: Sched, exception: bool)
    requires Step(s, Exit(exception)).Done?
    ensures exception ==> s.started
  {
  }

  lemma TickTakesOut(s: Sched, stack: Registers, id: nat)
    requires Orderly(s) && Leaving(s, id)
    ensures Step(s, TimerTick(stack)).Done?
    ensures var s' := Step(s, TimerTick(stack)).value;
            && Ids(s'.tasks) == Ids(Without(s.tasks, s.current.index))
            && forall i :: 0 <= i < |s'.tasks| ==> s'.tasks[i].id != id
  {
    TickOrderly(s, stack);
    hide Tick, Orderly, PidOf;
    var s' := Step(s, TimerTick(stack)).value;
    var k := s.current.index;
    var rest := Without(s.tasks, k);
    assert |s'.tasks| == |Ids(s'.tasks)| == |rest|;
    forall i | 0 <= i < |s'.tasks| ensures s'.tasks[i].id != id {
      assert s'.tasks[i].id == Ids(s'.tasks)[i] == rest[i].id;
      OthersDiffer(s, k, if i < k then i else i + 1);
    }
  }

  lemma OthersDiffer(s: Sched, i: nat, j: nat)
    requires Orderly(s) && i < |s.tasks| && j < |s.tasks| && i != j
    ensures s.tasks[i].id != s.tasks[j].id
  {
    hide PidOf;
  }
}
