/** The scheduler as it runs (src/multitasking/scheduler.c): a linked list of frames behind the sentinel
    `prochead`, changed in place, proved to compute the steps of `Scheduling`. */
module Scheduler {
  import opened Outcomes
  import opened Lists
  import opened Scheduling
  import opened Switching
  import opened Ram
  import F = Frames
  import A = Arena
  import AS = AddressSpaces
  import HB = HeapBytes
  import PS = ProcessSpace
  import S = System
  import TM = TaskMemory

  const QUANTA_AT: nat := 193 // after the pid, the name and the packed registers

  /** The saved registers in the bytes of a frame. */
  function RegistersIn(m: Memory, at: nat): Registers {
    Registers(
      S.RegisterAt(m, at, 0), S.RegisterAt(m, at, 1), S.RegisterAt(m, at, 2), S.RegisterAt(m, at, 3), S.RegisterAt(m, at, 4),
      S.RegisterAt(m, at, 5), S.RegisterAt(m, at, 6), S.RegisterAt(m, at, 7), S.RegisterAt(m, at, 8), S.RegisterAt(m, at, 9),
      S.RegisterAt(m, at, 10), S.RegisterAt(m, at, 11), S.RegisterAt(m, at, 12), S.RegisterAt(m, at, 13),
      S.RegisterAt(m, at, 14), S.RegisterAt(m, at, 15), S.RegisterAt(m, at, 16), S.RegisterAt(m, at, 17),
      S.RegisterAt(m, at, 18), S.RegisterAt(m, at, 19))
  }

  lemma ZeroFrame(m: Memory, at: nat)
    requires AllZero(m, at, at + S.FRAME_SIZE)
    ensures RegistersIn(m, at) == ZERO_REGISTERS && Peek(m, at + S.INVALID_AT) == 0
  {
    hide S.RegisterAt;
    forall i: nat | i < 20 ensures S.RegisterAt(m, at, i) == 0 {
      S.FreshFrameIsZero(m, at, i);
    }
    S.FreshFrameIsZero(m, at, 0);
  }

  class ProcessFrame {
    ghost var id: nat
    var pid: nat
    var registers: Registers
    var quanta: nat
    var invalid: bool
    var next: ProcessFrame?

    /** The static sentinel. */
    constructor Sentinel()
      ensures id == 0 && pid == 0 && registers == ZERO_REGISTERS && quanta == 0 && !invalid && next == null
    {
      id, pid, registers, quanta, invalid, next := 0, 0, ZERO_REGISTERS, 0, false, null;
    }

    /** A frame from the heap holds what the bytes of its block hold; `next` is set before it is read. */
    constructor (ram: Memory, at: nat)
      ensures pid == Peek(ram, at) && registers == RegistersIn(ram, at) && quanta == Peek(ram, at + QUANTA_AT)
      ensures invalid == (Peek(ram, at + S.INVALID_AT) != 0)
    {
      id, pid, registers, quanta := 0, Peek(ram, at), RegistersIn(ram, at), Peek(ram, at + QUANTA_AT);
      invalid, next := Peek(ram, at + S.INVALID_AT) != 0, null;
    }

    ghost function Value(): Task
      reads this`id, this`pid, this`registers, this`quanta, this`invalid
    {
      Task(id, pid, registers, quanta, invalid)
    }
  }

  class Scheduler {
    var highestPid: nat
    const prochead: ProcessFrame
    const memory: TM.TaskMemory
    var current: ProcessFrame?
    var schedulingStarted: bool

    ghost var list: seq<ProcessFrame> // the frames behind the sentinel, in order
    ghost var tasks: seq<Task> // what they hold
    ghost var cursor: Cursor // where `current` points
    ghost var created: nat

    constructor (memory: TM.TaskMemory)
      ensures Valid() && Abs() == START && this.memory == memory
      ensures fresh(prochead)
    {
      highestPid := 1;
      this.memory := memory;
      var sentinel := new ProcessFrame.Sentinel();
      prochead := sentinel;
      current := null;
      schedulingStarted := false;
      list, tasks, cursor, created := [], [], Null, 0;
    }

    ghost function NodeAt(i: nat): ProcessFrame?
      reads this`list
    {
      if i < |list| then list[i] else null
    }

    ghost predicate Distinct()
      reads this`list
    {
      prochead !in list && forall i, j :: 0 <= i < j < |list| ==> list[i] != list[j]
    }

    /** The chain from the sentinel is the list: it visits each frame once and ends in null. */
    ghost predicate Links()
      reads this`list, prochead`next, list`next
    {
      && prochead.next == NodeAt(0)
      && (forall i {:trigger list[i].next} :: 0 <= i < |list| ==> list[i].next == NodeAt(i + 1))
    }

    ghost predicate Holds()
      reads this`list, this`tasks, list`id, list`pid, list`registers, list`quanta, list`invalid
    {
      && |tasks| == |list|
      && (forall i {:trigger list[i].Value()} {:trigger tasks[i]} :: 0 <= i < |list| ==> list[i].Value() == tasks[i])
    }

    ghost predicate ListOk()
      reads this`list, this`tasks, prochead`next, list
    {
      Distinct() && Links() && Holds()
    }

    ghost predicate CursorPoints()
      reads this`list, this`cursor, this`current
    {
      match cursor
      case Null => current == null
      case Sentinel => current == prochead
      case At(i) => i < |list| && current == list[i]
    }

    ghost predicate Valid()
      reads this, prochead, list
    {
      ListOk() && CursorPoints()
    }

    ghost function Abs(): Sched
      reads this
    {
      Sched(tasks, cursor, highestPid, created, schedulingStarted)
    }

    lemma FrameAt(i: nat)
      requires ListOk() && i < |list|
      ensures |tasks| == |list| && list[i].Value() == tasks[i]
      ensures prochead.next == NodeAt(0) && list[i].next == NodeAt(i + 1)
    {
      hide Distinct;
    }

    /** Writes the quantum of the i-th frame. */
    method SetQuanta(frame: ProcessFrame, q: nat, ghost i: nat)
      requires ListOk() && i < |list| && list[i] == frame
      modifies this`tasks, frame`quanta
      ensures ListOk() && tasks == old(tasks)[i := old(tasks)[i].(quanta := q)]
    {
      FrameAt(i);
      frame.quanta := q;
      tasks := tasks[i := tasks[i].(quanta := q)];
      forall j | 0 <= j < |list| ensures list[j].Value() == tasks[j] {
        assert old(list[j].Value()) == old(tasks)[j];
      }
    }

    /** `prev_frame->next = current_frame->next`, which takes the i-th frame out of the list. */
    method UnlinkAfter(prevFrame: ProcessFrame, ghost i: nat)
      requires Distinct() && Links() && i < |list| && prevFrame == (if i == 0 then prochead else list[i - 1])
      modifies this`list, prochead`next, list`next
      ensures Distinct() && Links() && list == Without(old(list), i)
    {
      ghost var before := list;
      var frame := prevFrame.next;
      assert frame == before[i];
      prevFrame.next := frame.next;
      list := Without(list, i);
      forall k | 0 <= k < |list| ensures list[k].next == NodeAt(k + 1) {
        var j := if k < i then k else k + 1;
        assert list[k] == before[j] && old(before[j].next) == old(NodeAt(j + 1));
        assert j != i - 1 ==> before[j] != prevFrame;
      }
    }

    /** Takes the i-th frame and task out of the list. */
    method TakeOut(prevFrame: ProcessFrame, ghost i: nat)
      requires ListOk() && i < |list| && prevFrame == (if i == 0 then prochead else list[i - 1])
      modifies this`list, this`tasks, prochead`next, list`next
      ensures ListOk() && list == Without(old(list), i) && tasks == Without(old(tasks), i)
    {
      hide Links, Distinct;
      UnlinkAfter(prevFrame, i);
      tasks := Without(tasks, i);
      forall k | 0 <= k < |list| ensures list[k].Value() == tasks[k] {
        var j := if k < i then k else k + 1;
        assert list[k] == old(list)[j] && tasks[k] == old(tasks)[j];
        assert list[k].Value() == old(list[j].Value());
      }
    }

    /** `TerminateTask`: unlinks the first frame with the pid. Without one the loop would read the pid
        of a null frame. */
    method TerminateTask(pid: nat) returns (o: Outcome<()>)
      requires ListOk()
      modifies this`list, this`tasks, prochead`next, list`next
      ensures var k := FirstPid(old(tasks), pid, 0);
              if k < |old(list)| then
                && o == Done(()) && ListOk()
                && list == Without(old(list), k) && tasks == Without(old(tasks), k)
              else o == Fault
    {
      var currentFrame: ProcessFrame? := prochead;
      var prevFrame := prochead;
      ghost var i := 0;
      while true
        invariant ListOk() && list == old(list) && tasks == old(tasks) && 0 <= i <= |list|
        invariant currentFrame == if i == 0 then prochead else list[i - 1]
        invariant forall j :: 0 <= j < i ==> tasks[j].pid != pid
        decreases |list| - i
      {
        hide Distinct;
        prevFrame := currentFrame;
        currentFrame := currentFrame.next;
        if currentFrame == null {
          assert FirstPid(tasks, pid, 0) == |list|;
          return Fault;
        }
        assert currentFrame == list[i] && list[i].Value() == tasks[i];
        if currentFrame.pid == pid {
          assert FirstPid(tasks, pid, 0) == i;
          TakeOut(prevFrame, i);
          return Done(());
        }
        i := i + 1;
      }
    }

    /** What a creation does to the memory, from the present state. */
    ghost function Creation(start: nat, end: nat, inKernelCode: bool): Outcome<(AS.Kernel, A.Arena, nat, nat)>
      reads memory, memory.tables, memory.heap, memory.tables.alloc, memory.tables.alloc.frameList
    {
      TM.Create(memory.tables.Spaces(), memory.heap.head, memory.heap.pool, memory.heap.arena, memory.tables.info,
                start, end, inKernelCode)
    }

    /** The memory is in order, no block was ever freed, the frame's block splits cleanly, and the task's range is as
        `CreateProcessPML4` needs it. */
    ghost predicate Ready(start: nat, end: nat, inKernelCode: bool)
      reads memory, memory.alloc, memory.alloc.frameList, memory.heap, memory.tables
    {
      && memory.Valid() && HB.Pristine(memory.alloc.ram, memory.heap.arena.free)
      && A.CleanSplit(memory.heap.pool, memory.heap.arena, S.FRAME_SIZE)
      && PS.Disjoint(memory.tables.info, start, end, inKernelCode) && PS.NoWrap(memory.tables.info, start, end, inKernelCode)
    }

    /** The part of `IntAddTask` that gets the memory and fills the frame, which was zero. */
    method NewFrame(start: nat, end: nat, inKernelCode: bool) returns (o: Outcome<ProcessFrame>)
      requires Ready(start, end, inKernelCode)
      modifies this`highestPid, memory`owner, memory.heap`arena, memory.tables`roots, memory.alloc`ram, memory.alloc.frameList
      ensures match old(Creation(start, end, inKernelCode))
              case Panic => o == Panic
              case Fault => o == Fault
              case Done((k, h, _, stack)) =>
                && memory.tables.Spaces() == k && memory.heap.arena == h
                && o.Done? && fresh(o.value) && o.value.Value() == NewTask(old(Abs()), start, stack)
                && StartsAt(o.value.registers, start, stack) && o.value.quanta == 10 && !o.value.invalid
                && o.value.pid == old(highestPid)
                && memory.heap.arena.used > 0 && stack == memory.heap.pool.Frame(memory.heap.arena.used - 1)
                && AllZero(memory.alloc.ram, stack, stack + F.PAGE)
                && highestPid == (old(highestPid) + 1) % PIDS
                && memory.Valid() && HB.Pristine(memory.alloc.ram, memory.heap.arena.free)
    {
      hide TM.Create, PS.Disjoint, PS.NoWrap, A.CleanSplit, HB.Pristine, S.SystemOk, RegistersIn, TM.ExactSpace, TM.SameSpaces,
        HB.KeepsPayloads, AllZero, HB.HeapState;
      var got := memory.NewTaskMemory(start, end, inKernelCode);
      if got.IsFailure() {
        return got.PropagateFailure();
      }
      var (at, pml4, stack) := got.value;
      var frame := FillFrame(memory.alloc.ram, at, start, stack);
      return Done(frame);
    }

    method FillFrame(ram: Memory, at: nat, start: nat, stack: nat) returns (frame: ProcessFrame)
      requires AllZero(ram, at, at + S.FRAME_SIZE)
      modifies this`highestPid
      ensures fresh(frame) && frame.Value() == NewTask(old(Abs()), start, stack)
      ensures StartsAt(frame.registers, start, stack) && frame.quanta == 10 && !frame.invalid && frame.pid == old(highestPid)
      ensures highestPid == (old(highestPid) + 1) % PIDS
    {
      hide RegistersIn;
      ZeroFrame(ram, at);
      frame := new ProcessFrame(ram, at);
      frame.id := created;
      frame.pid := highestPid;
      highestPid := (highestPid + 1) % 256;
      frame.quanta := 10;
      frame.registers := frame.registers.(cs := 0x08);
      frame.registers := frame.registers.(rip := start);
      frame.registers := frame.registers.(ss := 0x10);
      frame.registers := frame.registers.(rsp := stack);
      frame.registers := frame.registers.(flags := 0x202);
    }

    /** `IntAddTask`: the frame goes in front of the list, unless its memory is not to be had. */
    method IntAddTask(start: nat, end: nat, inKernelCode: bool) returns (o: Outcome<()>)
      requires Valid() && Ready(start, end, inKernelCode)
      modifies this, prochead`next
      modifies memory`owner, memory.heap`arena, memory.tables`roots, memory.alloc`ram, memory.alloc.frameList
      ensures match old(Creation(start, end, inKernelCode))
              case Panic => o == Panic
              case Fault => o == Fault
              case Done((k, h, _, stack)) =>
                && memory.tables.Spaces() == k && memory.heap.arena == h
                && o == Done(()) && Valid() && Done(Abs()) == Step(old(Abs()), Spawn(start, Done(stack)))
                && |list| > 0 && fresh(list[0]) && list[1..] == old(list) && current == old(current)
                && memory.heap.arena.used > 0
                && StartsAt(list[0].registers, start, memory.heap.pool.Frame(memory.heap.arena.used - 1))
                && list[0].quanta == 10 && !list[0].invalid && list[0].pid == old(highestPid)
                && AllZero(memory.alloc.ram, list[0].registers.rsp, list[0].registers.rsp + F.PAGE)
                && memory.Valid() && HB.Pristine(memory.alloc.ram, memory.heap.arena.free)
    {
      hide NewTask, Links, Distinct, Holds, CursorPoints, TM.Create, PS.Disjoint, PS.NoWrap, A.CleanSplit, HB.Pristine, S.SystemOk;
      var got := NewFrame(start, end, inKernelCode);
      if got.IsFailure() {
        return got.PropagateFailure();
      }
      AddFront(got.value);
      return Done(());
    }

    /** Links the frame and counts the creation. */
    method AddFront(frame: ProcessFrame)
      requires Valid() && frame != prochead && frame !in list
      modifies this`list, this`tasks, this`created, this`cursor, prochead`next, frame`next
      ensures Valid() && list == [frame] + old(list) && tasks == [frame.Value()] + old(tasks)
      ensures created == old(created) + 1 && cursor == if old(cursor).At? then At(old(cursor).index + 1) else old(cursor)
    {
      hide Links, Distinct;
      LinkFront(frame);
      tasks := [frame.Value()] + tasks;
      created := created + 1;
      cursor := if cursor.At? then At(cursor.index + 1) else cursor;
      forall i | 0 < i < |list| ensures list[i] == old(list)[i - 1] && list[i].Value() == tasks[i] {
        assert list[i].Value() == old(list[i - 1].Value());
      }
    }

    /** The new frame becomes the first of the list. */
    method LinkFront(frame: ProcessFrame)
      requires Distinct() && Links() && frame != prochead && frame !in list
      modifies this`list, prochead`next, frame`next
      ensures Distinct() && Links() && list == [frame] + old(list)
    {
      ghost var before := list;
      frame.next := prochead.next;
      prochead.next := frame;
      list := [frame] + before;
      forall i | 0 < i < |list| ensures list[i].next == NodeAt(i + 1) {
        assert list[i] == before[i - 1] && old(before[i - 1].next) == old(NodeAt(i));
      }
    }

    method MarkSchedulingActive()
      requires Valid()
      modifies this`schedulingStarted
      ensures Valid() && Abs() == old(Abs()).(started := true)
    {
      schedulingStarted := true;
    }

    /** `ProcessExit` and `CommonExceptionHandler`: the running task is only marked; the next tick unlinks it. The
        handler panics before scheduling has started and while nothing runs. */
    method Exit(exception: bool) returns (o: Outcome<()>)
      requires Valid()
      modifies this`tasks, prochead`invalid, list`invalid
      ensures match MarkInvalid(old(Abs()), exception)
              case Done(s) => o == Done(()) && Valid() && Abs() == s
              case Panic => o == Panic
              case Fault => o == Fault
      ensures old(cursor).At? && (exception ==> schedulingStarted) ==>
                && o == Done(()) && cursor == old(cursor) && current == list[cursor.index] && current.invalid
                && tasks == old(tasks)[cursor.index := old(tasks)[cursor.index].(invalid := true)]
                && forall f :: f in list && f != current ==> f.invalid == old(f.invalid)
    {
      if exception && !schedulingStarted {
        return Panic;
      }
      if current == null {
        return if exception then Panic else Fault;
      }
      current.invalid := true;
      if cursor.At? {
        tasks := tasks[cursor.index := current.Value()];
      }
      return Done(());
    }

    /** The save part of `TaskSwitch`: false when there is nothing to run. */
    method SaveContext(stack: Registers) returns (go: bool)
      requires Valid()
      modifies this`current, this`cursor, this`tasks, list`registers
      ensures Valid() && Abs() == Save(old(Abs()), stack) && list == old(list)
      ensures go == cursor.At?
      ensures old(cursor).At? ==>
                && current == old(current) && cursor == old(cursor)
                && tasks == old(tasks)[cursor.index := old(tasks)[cursor.index].(registers := stack)]
      ensures !old(cursor).At? && list != [] ==> current == list[0] && cursor == At(0) && tasks == old(tasks)
      ensures !old(cursor).At? && list == [] ==> current == old(current) && cursor == old(cursor) && tasks == old(tasks)
    {
      if current == null || current == prochead {
        if prochead.next != null {
          current := prochead.next;
          cursor := At(0);
        } else {
          return false;
        }
      } else {
        current.registers := stack;
        tasks := tasks[cursor.index := current.Value()];
      }
      return true;
    }

    /** The part of `TaskSwitch` that deals with a task marked invalid: false when no task is left. The
        task is listed, so `TerminateTask` finds a frame with its pid before it meets the null pointer. */
    method ReapCurrent() returns (go: bool)
      requires Valid() && cursor.At?
      modifies this`current, this`cursor, this`list, this`tasks, prochead`next, list`next
      ensures Reap(old(Abs())).Done?
      ensures Valid() && Abs() == Reap(old(Abs())).value && go == cursor.At?
      ensures forall i :: 0 <= i < |list| ==> list[i] in old(list)
    {
      hide Distinct, Holds, Links, FirstPid;
      ghost var i := cursor.index;
      FrameAt(i);
      if current.invalid {
        PidFound(tasks, i);
        var terminated := TerminateTask(current.pid);
        if current.next != null {
          current := current.next;
        }
        FirstFrame();
        if prochead.next != null {
          current := prochead.next;
          cursor := At(0);
        } else {
          current := prochead;
          cursor := Sentinel;
          return false;
        }
      }
      return true;
    }

    lemma FirstFrame()
      requires ListOk()
      ensures prochead.next == NodeAt(0) && |tasks| == |list|
    {
      hide Distinct;
    }

    /** `if (current->quanta == 0)`: refill and move on. */
    method MoveOn()
      requires Valid() && cursor.At?
      modifies this`current, this`cursor, this`tasks, list`quanta
      ensures Valid() && list == old(list) && cursor.At? && highestPid == old(highestPid) && created == old(created)
      ensures Spend(Abs()) == Charge(old(Abs()))
    {
      hide Distinct, Holds, Links;
      ghost var i := cursor.index;
      FrameAt(i);
      if current.quanta == 0 {
        SetQuanta(current, 10, i);
        FrameAt(i);
        if current.next != null {
          current := current.next;
          cursor := At(i + 1);
        } else {
          current := prochead.next;
          cursor := At(0);
        }
      }
    }

    /** The quantum part of `TaskSwitch`. */
    method ChargeCurrent()
      requires Valid() && cursor.At?
      modifies this`current, this`cursor, this`tasks, list`quanta
      ensures Valid() && Abs() == Charge(old(Abs())) && list == old(list)
    {
      hide Charge, Distinct, Holds, Links;
      MoveOn();
      FrameAt(cursor.index);
      SetQuanta(current, (current.quanta + 255) % 256, cursor.index);
    }

    /** `TaskSwitch`, called by the timer interrupt with the interrupted registers; the result is what
        the interrupt returns to. */
    method TaskSwitch(stack: Registers) returns (registers: Registers)
      requires Valid()
      modifies this`current, this`cursor, this`list, this`tasks, prochead, list
      ensures Valid() && Tick(old(Abs()), stack) == Done((Abs(), registers))
      ensures old(list) == [] ==> registers == stack && Abs() == old(Abs()) && current == old(current)
      ensures Orderly(old(Abs())) ==> Switched(old(Abs()), stack, Abs(), registers)
    {
      hide Save, Reap, Charge, Orderly, Switched;
      if Orderly(Abs()) {
        TickSwitches(Abs(), stack);
      }
      var go := SaveContext(stack);
      if !go {
        return stack;
      }
      go := ReapCurrent();
      if !go {
        return stack;
      }
      assert forall i :: 0 <= i < |list| ==> list[i] in old(list);
      ChargeCurrent();
      assert current.Value() == tasks[cursor.index];
      return current.registers;
    }
  }

  /** The pid of a listed task is found at its place or before it. */
  lemma PidFound(tasks: seq<Task>, i: nat)
    requires i < |tasks|
    ensures FirstPid(tasks, tasks[i].pid, 0) <= i
  {
  }
}
