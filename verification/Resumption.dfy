/** Context switching is transparent: in every run of the scheduler each task is resumed with exactly
    the registers it was interrupted with, so what one task sees is a run of its own. */
module Resumption {
  import opened Outcomes
  import opened Scheduling

  /** What happens to tasks, in order: a frame is created with initial registers, a task is
      interrupted with some registers, a task is resumed with some registers. */
  datatype Entry =
    | Created(id: nat, registers: Registers)
    | Interrupted(id: nat, registers: Registers)
    | Resumed(id: nat, registers: Registers)

  /** The task that `current` points to runs between two ticks; -1 when there is none. */
  function Running(s: Sched): int {
    if s.current.At? && s.current.index < |s.tasks| then s.tasks[s.current.index].id else -1
  }

  /** What an observer of the interrupt sees of one step: who ran before and with which registers the
      tick came, who runs after and with which registers the tick returned. */
  function Observe(s: Sched, e: Event): seq<Entry> {
    match e
    case TimerTick(stack) =>
      (match Tick(s, stack)
       case Done((s', out)) =>
         (if Running(s) >= 0 then [Interrupted(Running(s), stack)] else [])
         + (if Running(s') >= 0 then [Resumed(Running(s'), out)] else [])
       case _ => [])
    case Spawn(start, memory) => if memory.Done? then [Created(s.created, NewTask(s, start, memory.value).registers)] else []
    case Exit(_) => []
    case Activate => []
  }

  function Log(events: seq<Event>): seq<Entry>
    decreases |events|
  {
    if events == [] then []
    else
      var init := events[..|events| - 1];
      Log(init) + match Run(START, init)
                  case Done(s) => Observe(s, events[|events| - 1])
                  case _ => []
  }

  /** The part of the log that concerns one task. */
  function Project(log: seq<Entry>, id: nat): seq<Entry>
    decreases |log|
  {
    if log == [] then []
    else
      var rest := Project(log[..|log| - 1], id);
      if log[|log| - 1].id == id then rest + [log[|log| - 1]] else rest
  }

  /** A run of one task alone: created, then resumed and interrupted in turns, each time resumed with
      the registers it had. */
  ghost predicate Solo(p: seq<Entry>) {
    && (forall k :: 0 <= k < |p| && p[k].Created? ==> k == 0)
    && (forall k :: 0 <= k < |p| && p[k].Resumed? ==> k > 0 && !p[k - 1].Resumed? && p[k].registers == p[k - 1].registers)
    && (forall k :: 0 <= k < |p| && p[k].Interrupted? ==> k > 0 && p[k - 1].Resumed?)
  }

  // ---- the invariant

  /** A task that waits holds the registers of the last entry about it; the task that runs was resumed
      last. */
  ghost predicate Tracks(tasks: seq<Task>, running: int, log: seq<Entry>) {
    forall i :: 0 <= i < |tasks| ==>
      var p := Project(log, tasks[i].id);
      && p != []
      && (if tasks[i].id == running then p[|p| - 1].Resumed?
          else !p[|p| - 1].Resumed? && p[|p| - 1].registers == tasks[i].registers)
  }

  ghost predicate AllSolo(log: seq<Entry>) {
    forall id: nat :: Solo(Project(log, id))
  }

  ghost predicate Unborn(created: nat, log: seq<Entry>) {
    forall id: nat :: created <= id ==> Project(log, id) == []
  }

  ghost predicate Book(tasks: seq<Task>, running: int, created: nat, log: seq<Entry>) {
    Tracks(tasks, running, log) && AllSolo(log) && Unborn(created, log)
  }

  ghost predicate Distinct(tasks: seq<Task>) {
    forall i, j :: 0 <= i < j < |tasks| ==> tasks[i].id != tasks[j].id
  }

  lemma ProjectOne(log: seq<Entry>, e: Entry, id: nat)
    ensures Project(log + [e], id) == if e.id == id then Project(log, id) + [e] else Project(log, id)
  {
    assert (log + [e])[..|log|] == log;
  }

  lemma SoloExtends(p: seq<Entry>, e: Entry)
    requires Solo(p)
    requires e.Created? ==> p == []
    requires e.Resumed? ==> p != [] && !p[|p| - 1].Resumed? && p[|p| - 1].registers == e.registers
    requires e.Interrupted? ==> p != [] && p[|p| - 1].Resumed?
    ensures Solo(p + [e])
  {
  }

  /** Adding one entry that fits keeps every projection a solo run. */
  lemma AllSoloExtends(log: seq<Entry>, e: Entry)
    requires AllSolo(log) && Solo(Project(log, e.id) + [e])
    ensures AllSolo(log + [e])
  {
    hide Solo, Project;
    forall id: nat ensures Solo(Project(log + [e], id)) {
      ProjectOne(log, e, id);
    }
  }

  lemma UnbornKept(created: nat, created': nat, log: seq<Entry>, e: Entry)
    requires Unborn(created, log) && e.id < created' && created <= created'
    ensures Unborn(created', log + [e])
  {
    hide Project;
    forall id: nat | created' <= id ensures Project(log + [e], id) == [] {
      ProjectOne(log, e, id);
    }
  }

  // ---- the micro-steps of a tick

  lemma InterruptBook(tasks: seq<Task>, i: nat, created: nat, log: seq<Entry>, stack: Registers)
    requires i < |tasks| && Distinct(tasks) && tasks[i].id < created && Book(tasks, tasks[i].id, created, log)
    ensures Book(tasks[i := tasks[i].(registers := stack)], -1, created, log + [Interrupted(tasks[i].id, stack)])
  {
    hide Project;
    var e := Interrupted(tasks[i].id, stack);
    SoloExtends(Project(log, e.id), e);
    AllSoloExtends(log, e);
    UnbornKept(created, created, log, e);
    var tasks' := tasks[i := tasks[i].(registers := stack)];
    forall j | 0 <= j < |tasks'|
      ensures var p := Project(log + [e], tasks'[j].id);
              p != [] && !p[|p| - 1].Resumed? && p[|p| - 1].registers == tasks'[j].registers
    {
      ProjectOne(log, e, tasks'[j].id);
    }
  }

  lemma ResumeBook(tasks: seq<Task>, j: nat, created: nat, log: seq<Entry>)
    requires j < |tasks| && Distinct(tasks) && tasks[j].id < created && Book(tasks, -1, created, log)
    ensures Book(tasks, tasks[j].id, created, log + [Resumed(tasks[j].id, tasks[j].registers)])
  {
    hide Project;
    var e := Resumed(tasks[j].id, tasks[j].registers);
    SoloExtends(Project(log, e.id), e);
    AllSoloExtends(log, e);
    UnbornKept(created, created, log, e);
    forall k | 0 <= k < |tasks|
      ensures var p := Project(log + [e], tasks[k].id);
              p != [] && (if tasks[k].id == e.id then p[|p| - 1].Resumed?
                          else !p[|p| - 1].Resumed? && p[|p| - 1].registers == tasks[k].registers)
    {
      ProjectOne(log, e, tasks[k].id);
    }
  }

  /** Tasks may leave the list, and quanta may change, without disturbing the rest. */
  ghost predicate Subset(tasks: seq<Task>, tasks': seq<Task>) {
    forall i :: 0 <= i < |tasks'| ==>
      exists j :: 0 <= j < |tasks| && tasks[j].id == tasks'[i].id && tasks[j].registers == tasks'[i].registers
  }

  lemma SubsetBook(tasks: seq<Task>, tasks': seq<Task>, created: nat, log: seq<Entry>)
    requires Book(tasks, -1, created, log) && Subset(tasks, tasks')
    ensures Book(tasks', -1, created, log)
  {
    hide Project, AllSolo, Unborn;
    forall i | 0 <= i < |tasks'|
      ensures var p := Project(log, tasks'[i].id);
              p != [] && !p[|p| - 1].Resumed? && p[|p| - 1].registers == tasks'[i].registers
    {
      var j :| 0 <= j < |tasks| && tasks[j].id == tasks'[i].id && tasks[j].registers == tasks'[i].registers;
    }
  }

  lemma IdsDistinct(s: Sched)
    requires IdsOk(s)
    ensures Distinct(s.tasks)
  {
    hide PidOf;
  }

  lemma ReapSubset(s: Sched)
    requires s.current.At? && s.current.index < |s.tasks| && Reap(s).Done?
    ensures Subset(s.tasks, Reap(s).value.tasks) && Reap(s).value.created == s.created
  {
    var r := Reap(s).value;
    if s.tasks[s.current.index].invalid {
      var k := FirstPid(s.tasks, s.tasks[s.current.index].pid, 0);
      forall i | 0 <= i < |r.tasks|
        ensures exists j :: 0 <= j < |s.tasks| && s.tasks[j].id == r.tasks[i].id && s.tasks[j].registers == r.tasks[i].registers
      {
        var j := if i < k then i else i + 1;
        assert s.tasks[j].id == r.tasks[i].id && s.tasks[j].registers == r.tasks[i].registers;
      }
    }
  }

  lemma ChargeSubset(s: Sched)
    requires s.current.At? && s.current.index < |s.tasks|
    ensures Subset(s.tasks, Charge(s).tasks) && Charge(s).created == s.created
  {
    var c := Charge(s);
    forall i | 0 <= i < |c.tasks|
      ensures exists j :: 0 <= j < |s.tasks| && s.tasks[j].id == c.tasks[i].id && s.tasks[j].registers == c.tasks[i].registers
    {
      assert s.tasks[i].id == c.tasks[i].id && s.tasks[i].registers == c.tasks[i].registers;
    }
  }

  /** After saving: nobody runs, and the interrupted task is booked with its registers. */
  lemma SaveBook(s: Sched, stack: Registers, log: seq<Entry>)
    requires Base(s) && Book(s.tasks, Running(s), s.created, log)
    ensures Book(Save(s, stack).tasks, -1, s.created,
                 log + if Running(s) >= 0 then [Interrupted(Running(s), stack)] else [])
    ensures Save(s, stack).created == s.created
  {
    IdsDistinct(s);
    hide Book, PidOf;
    if s.current.At? {
      InterruptBook(s.tasks, s.current.index, s.created, log, stack);
    } else {
      assert log + [] == log;
    }
  }

  /** After saving: reaping, charging and loading resume one waiting task, if any is left. */
  lemma LoadBook(saved: Sched, log: seq<Entry>)
    requires Base(saved) && saved.current.At? && Book(saved.tasks, -1, saved.created, log)
    ensures Reap(saved).Done?
    ensures var r := Reap(saved).value;
            if !r.current.At? then Book(r.tasks, -1, r.created, log)
            else
              Base(r) &&
              var c := Charge(r);
              Book(c.tasks, Running(c), c.created, log + [Resumed(Running(c), c.tasks[c.current.index].registers)])
  {
    ReapBase(saved);
    ReapSubset(saved);
    var r := Reap(saved).value;
    hide Book, PidOf;
    SubsetBook(saved.tasks, r.tasks, saved.created, log);
    if r.current.At? {
      ChargeBase(r);
      ChargeSubset(r);
      var c := Charge(r);
      SubsetBook(r.tasks, c.tasks, saved.created, log);
      IdsDistinct(c);
      hide Reap, Charge;
      ResumeBook(c.tasks, c.current.index, c.created, log);
    }
  }

  /** A tick that finds a task, in terms of its three parts. */
  lemma TickParts(s: Sched, stack: Registers)
    requires Base(s) && Save(s, stack).current.At?
    ensures Base(Save(s, stack)) && Reap(Save(s, stack)).Done? && Base(Reap(Save(s, stack)).value)
    ensures var r := Reap(Save(s, stack)).value;
            var before := if Running(s) >= 0 then [Interrupted(Running(s), stack)] else [];
            if !r.current.At? then
              Tick(s, stack) == Done((r, stack)) && Running(r) == -1 && Observe(s, TimerTick(stack)) == before
            else
              var c := Charge(r);
              && Tick(s, stack) == Done((c, c.tasks[c.current.index].registers)) && Running(c) >= 0
              && Observe(s, TimerTick(stack)) == before + [Resumed(Running(c), c.tasks[c.current.index].registers)]
  {
    SaveBase(s, stack);
    ReapBase(Save(s, stack));
    hide Save, Reap, Charge, IdsOk;
  }

  lemma TickBook(s: Sched, stack: Registers, log: seq<Entry>)
    requires Base(s) && Book(s.tasks, Running(s), s.created, log)
    ensures Tick(s, stack).Done?
    ensures var s' := Tick(s, stack).value.0;
            Book(s'.tasks, Running(s'), s'.created, log + Observe(s, TimerTick(stack)))
  {
    SaveBook(s, stack, log);
    SaveBase(s, stack);
    var saved := Save(s, stack);
    var before := if Running(s) >= 0 then [Interrupted(Running(s), stack)] else [];
    if saved.current.At? {
      hide Book, Base, Save, Reap, Charge, Tick, Observe, Running;
      TickParts(s, stack);
      LoadBook(saved, log + before);
      var r := Reap(saved).value;
      if r.current.At? {
        CursorOf(r);
        var c := Charge(r);
        var after := [Resumed(Running(c), c.tasks[c.current.index].registers)];
        assert log + (before + after) == (log + before) + after;
      }
    } else {
      hide Book, IdsOk;
      assert saved == s && before == [];
      assert Observe(s, TimerTick(stack)) == [];
    }
  }

  lemma CursorOf(s: Sched)
    requires Base(s)
    ensures s.current.At? ==> s.current.index < |s.tasks|
  {
  }

  lemma SpawnBook(s: Sched, start: nat, top: nat, log: seq<Entry>)
    requires Base(s) && Book(s.tasks, Running(s), s.created, log)
    ensures var s' := AddTask(s, start, top);
            Book(s'.tasks, Running(s'), s'.created, log + Observe(s, Spawn(start, Done(top))))
  {
    hide Project, PidOf;
    var e := Created(s.created, NewTask(s, start, top).registers);
    var s' := AddTask(s, start, top);
    SoloExtends(Project(log, s.created), e);
    AllSoloExtends(log, e);
    UnbornKept(s.created, s.created + 1, log, e);
    assert Running(s') == Running(s);
    forall i | 0 <= i < |s'.tasks|
      ensures var p := Project(log + [e], s'.tasks[i].id);
              p != [] && (if s'.tasks[i].id == Running(s') then p[|p| - 1].Resumed?
                          else !p[|p| - 1].Resumed? && p[|p| - 1].registers == s'.tasks[i].registers)
    {
      ProjectOne(log, e, s'.tasks[i].id);
      assert i > 0 ==> s'.tasks[i] == s.tasks[i - 1];
    }
  }

  lemma StepBook(s: Sched, e: Event, log: seq<Entry>)
    requires Base(s) && Book(s.tasks, Running(s), s.created, log) && Step(s, e).Done?
    ensures var s' := Step(s, e).value; Book(s'.tasks, Running(s'), s'.created, log + Observe(s, e))
  {
    match e
    case TimerTick(stack) =>
      hide Book, Tick, Observe;
      TickBook(s, stack, log);
    case Spawn(start, memory) =>
      hide Book, AddTask, Observe;
      SpawnBook(s, start, memory.value, log);
    case Exit(_) =>
      hide Project, AllSolo, Unborn;
      assert log + [] == log;
    case Activate =>
      hide Book;
      assert log + [] == log;
  }

  lemma {:induction false} RunBook(events: seq<Event>)
    requires Run(START, events).Done?
    ensures var s := Run(START, events).value; Book(s.tasks, Running(s), s.created, Log(events))
    decreases |events|
  {
    if events == [] {
      assert Book([], -1, 0, []);
    } else {
      hide Book, Step, Observe;
      var init := events[..|events| - 1];
      RunBook(init);
      RunBase(init);
      StepBook(Run(START, init).value, events[|events| - 1], Log(init));
    }
  }

  /** For every interleaving of ticks, creations and exits, with any number of tasks, the run projected
      on any one task is a solo run: it starts with its creation-time registers, and every time it is
      resumed it has exactly the registers it was last interrupted with. */
  lemma ProjectionIsSolo(events: seq<Event>, id: nat)
    requires Run(START, events).Done?
    ensures Solo(Project(Log(events), id))
  {
    hide Solo, Project, Log, Run;
    RunBook(events);
  }

  // ---- the first turn

  lemma {:induction false} ProjectConcat(a: seq<Entry>, b: seq<Entry>, id: nat)
    ensures Project(a + b, id) == Project(a, id) + Project(b, id)
    decreases |b|
  {
    if b == [] {
      assert a + b == a;
    } else {
      var init, e := b[..|b| - 1], b[|b| - 1];
      ProjectConcat(a, init, id);
      assert a + b == (a + init) + [e] && b == init + [e];
      ProjectOne(a + init, e, id);
      ProjectOne(init, e, id);
    }
  }

  /** The entry a creation makes, with its registers field by field. */
  lemma SpawnObserved(s: Sched, start: nat, stack: nat)
    ensures var o := Observe(s, Spawn(start, Done(stack)));
            |o| == 1 && o[0].Created? && o[0].id == s.created && StartsAt(o[0].registers, start, stack)
  {
    NewTaskStarts(s, start, stack);
  }

  lemma {:induction false} CreatedFirst(events: seq<Event>, n: nat, start: nat, stack: nat)
    requires n < |events| && events[n] == Spawn(start, Done(stack)) && Run(START, events[..n]).Done?
    ensures var p := Project(Log(events), Run(START, events[..n]).value.created);
            p != [] && p[0].Created? && StartsAt(p[0].registers, start, stack)
    decreases |events|
  {
    hide Observe, StartsAt, Run;
    var init, e := events[..|events| - 1], events[|events| - 1];
    var s := Run(START, events[..n]).value;
    var more := match Run(START, init) case Done(s1) => Observe(s1, e) case _ => [];
    assert Log(events) == Log(init) + more;
    ProjectConcat(Log(init), more, s.created);
    if n == |events| - 1 {
      RunBook(init);
      SpawnObserved(s, start, stack);
      hide Log;
      assert more == [] + [more[0]];
      ProjectOne([], more[0], s.created);
    } else {
      assert init[..n] == events[..n];
      CreatedFirst(init, n, start, stack);
    }
  }

  /** In every run, the first time a task is resumed it begins at its start address on its stack page, with the segments,
      flags and zero registers it was created with, whatever happens before. */
  lemma FirstTurn(events: seq<Event>, n: nat, start: nat, stack: nat)
    requires n < |events| && events[n] == Spawn(start, Done(stack)) && Run(START, events).Done?
    ensures Run(START, events[..n]).Done?
    ensures var p := Project(Log(events), Run(START, events[..n]).value.created);
            |p| > 1 ==> p[1].Resumed? && StartsAt(p[1].registers, start, stack)
  {
    RunUpTo(events, n);
    hide Run, Log, Project, StartsAt;
    CreatedFirst(events, n, start, stack);
    ProjectionIsSolo(events, Run(START, events[..n]).value.created);
  }

  lemma {:induction false} RunUpTo(events: seq<Event>, n: nat)
    requires n <= |events| && Run(START, events).Done?
    ensures Run(START, events[..n]).Done?
    decreases |events|
  {
    hide Step;
    if n == |events| {
      assert events[..n] == events;
    } else {
      RunUpTo(events[..|events| - 1], n);
      assert events[..|events| - 1][..n] == events[..n];
    }
  }
}
