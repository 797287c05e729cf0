/** The memory side of `IntAddTask` (src/multitasking/scheduler.c): a frame from the heap, an address space
    and a stack page, all from the same memory. */
module TaskMemory {
  import opened Ram
  import opened Outcomes
  import opened Frames
  import opened PageFormat
  import opened Paging
  import opened AddressSpaces
  import opened ProcessSpace
  import HeapList
  import opened Arena
  import opened HeapBytes
  import H = Heap
  import PT = PageTables
  import opened System

  /** A list of paging calls takes the whole system from one good state to another. */
  lemma {:induction false} PagingRun(k: Kernel, owner: Owner, head: nat, pool: Pool, h: Arena, calls: seq<Call>)
      returns (owner': Owner, u: nat)
    requires SystemOk(k, owner, head, pool, h) && Legal(k, calls)
    ensures RunCalls(k, calls).Done? ==>
              && h.used <= u <= pool.count
              && SystemOk(RunCalls(k, calls).value, owner', head, pool, h.(used := u))
              && Refines(k, calls, RunCalls(k, calls).value)
              && (Pristine(k.m.ram, h.free) ==> Pristine(RunCalls(k, calls).value.m.ram, h.free))
              && KeepsPayloads(k.m.ram, RunCalls(k, calls).value.m.ram, h.live)
    decreases |calls|
  {
    owner', u := owner, h.used;
    if calls == [] {
      RefinesSelf(k);
      SystemNumbers(k, owner, head, pool, h);
    } else {
      hide SystemOk, Refines, Latest, DoCall, Pristine, KeepsPayloads;
      var init, c := calls[..|calls| - 1], calls[|calls| - 1];
      assert calls == init + [c];
      var owner1, u1 := PagingRun(k, owner, head, pool, h, init);
      if RunCalls(k, init).Done? && DoCall(RunCalls(k, init).value, c).Done? {
        var k1, h1 := RunCalls(k, init).value, h.(used := u1);
        SystemNumbers(k1, owner1, head, pool, h1);
        u := CallPrefix(k1, pool.first, c, u1);
        var k2 := DoCall(k1, c).value;
        assert UsedPrefix(k2.m.frames, u);
        PrefixIsFirstFree(k2.m.frames, u);
        var s, s' := State(k1, h1), State(k2, h1.(used := u));
        owner' := PagingStep(k, init, s, owner1, head, pool, c, s');
        KeepsCompose(k.m.ram, k1.m.ram, k2.m.ram, h.live, h1.live);
      }
    }
  }

  lemma SystemNumbers(k: Kernel, owner: Owner, head: nat, pool: Pool, h: Arena)
    requires SystemOk(k, owner, head, pool, h)
    ensures h.used <= pool.count && |k.m.frames| == pool.count
    ensures Layout(k.m.frames, pool.first) && UsedPrefix(k.m.frames, h.used)
    ensures KernelOk(k, owner, pool.first) && HeapState(k.m, head, pool, h)
  {
    StateNumbers(k.m, head, pool, h);
    hide ArenaOk, HeapList.HeapInv;
  }

  /** Taking one frame for something else, such as a stack. */
  lemma ClaimIsInvisible(k: Kernel, owner: Owner, head: nat, pool: Pool, h: Arena)
    requires SystemOk(k, owner, head, pool, h) && Claim(k.m).Done?
    ensures var (m', a) := Claim(k.m).value;
            && h.used < pool.count && a == pool.Frame(h.used)
            && SystemOk(k.(m := m'), owner, head, pool, h.(used := h.used + 1))
            && (forall s, v: nat :: 0 <= s < |k.roots| ==> Walk(m'.ram, k.roots[s], v) == Walk(k.m.ram, k.roots[s], v))
            && (Pristine(k.m.ram, h.free) ==> Pristine(m'.ram, h.free))
            && KeepsPayloads(k.m.ram, m'.ram, h.live)
            && AllZero(m'.ram, a, a + PAGE)
            && (forall b :: !(a <= b < a + PAGE) ==> Peek(m'.ram, b) == Peek(k.m.ram, b))
  {
    hide SystemOk, Claim, HeapState, Pristine, Peek, AllZero, KeepsPayloads, Untouched, Extends;
    SystemNumbers(k, owner, head, pool, h);
    FrameTaken(k.m, head, pool, h);
    HeapStepIsInvisible(k, owner, head, pool, h, Claim(k.m).value.0, h.(used := h.used + 1));
  }

  /** What a task creation does to the memory, or how it ends instead: the frame, the address space, the stack. */
  ghost function Create(k: Kernel, head: nat, pool: Pool, h: Arena, info: PagingInfo, start: nat, end: nat, inKernelCode: bool):
      Outcome<(Kernel, Arena, nat, nat)>
  {
    var (m1, h1, frame) :- MallocBytes(k.m, head, pool, h, FRAME_SIZE);
    var k2 :- RunCalls(k.(m := m1), ProcessCalls(|k.roots|, info, start, end, inKernelCode));
    var (m3, stack) :- Claim(k2.m);
    Done((k2.(m := m3), h1.(used := FirstFree(m3.frames, 0)), frame, stack))
  }

  /** The space that `CreateProcessPML4` adds is exact; older spaces, the heap and every live payload are kept. */
  lemma SpaceOk(k: Kernel, owner: Owner, head: nat, pool: Pool, h: Arena, info: PagingInfo, start: nat, end: nat,
                inKernelCode: bool) returns (owner': Owner, u: nat)
    requires SystemOk(k, owner, head, pool, h) && Disjoint(info, start, end, inKernelCode)
    requires RunCalls(k, ProcessCalls(|k.roots|, info, start, end, inKernelCode)).Done?
    ensures var k' := RunCalls(k, ProcessCalls(|k.roots|, info, start, end, inKernelCode)).value;
            && SystemOk(k', owner', head, pool, h.(used := u))
            && |k'.roots| == |k.roots| + 1 && k'.roots == k.roots + [k'.roots[|k.roots|]]
            && ExactSpace(k'.m.ram, k'.roots[|k.roots|], PlanOf(info, start, end, inKernelCode))
            && SameSpaces(k.m.ram, k'.m.ram, k.roots)
            && (Pristine(k.m.ram, h.free) ==> Pristine(k'.m.ram, h.free))
            && KeepsPayloads(k.m.ram, k'.m.ram, h.live)
  {
    hide SystemOk, HeapState, Pristine, Walk, Intended, Peek, RunCalls, ProcessCalls, Disjoint, Refines, KernelOk, Legal, KeepsPayloads, PlanOf;
    var calls := ProcessCalls(|k.roots|, info, start, end, inKernelCode);
    SystemNumbers(k, owner, head, pool, h);
    ProcessLegal(k, info, start, end, inKernelCode);
    owner', u := PagingRun(k, owner, head, pool, h, calls);
    var k' := RunCalls(k, calls).value;
    RootsExtend(k, owner, pool.first, info, start, end, inKernelCode, k');
    forall v: nat ensures Walk(k'.m.ram, k'.roots[|k.roots|], v) == Intended(PlanOf(info, start, end, inKernelCode), v) {
      ProcessSpaceExact(k, owner, pool.first, info, start, end, inKernelCode, k', v);
    }
    forall s, v: nat | 0 <= s < |k.roots| ensures Walk(k'.m.ram, k.roots[s], v) == Walk(k.m.ram, k.roots[s], v) {
      ProcessSpaceExact(k, owner, pool.first, info, start, end, inKernelCode, k', v);
    }
  }

  ghost predicate ExactSpace(ram: Memory, root: nat, plan: Plan) {
    forall v: nat :: Walk(ram, root, v) == Intended(plan, v)
  }

  ghost predicate SameSpaces(ram: Memory, ram': Memory, roots: seq<nat>) {
    forall s, v: nat :: 0 <= s < |roots| ==> Walk(ram', roots[s], v) == Walk(ram, roots[s], v)
  }

  /** A space built to plan is what its arguments ask for. */
  lemma SpaceByRanges(ram: Memory, root: nat, info: PagingInfo, start: nat, end: nat, inKernelCode: bool)
    requires ExactSpace(ram, root, PlanOf(info, start, end, inKernelCode)) && Sound(info, start, end, inKernelCode)
    ensures forall v: nat :: Walk(ram, root, v) == Wanted(info, start, end, inKernelCode, v)
  {
    hide Walk, Wanted, Intended, Sound, PlanOf;
    forall v: nat ensures Walk(ram, root, v) == Wanted(info, start, end, inKernelCode, v) {
      IntendedIsWanted(info, start, end, inKernelCode, v);
    }
  }

  /** The frame is a live block of 224 bytes, invisible to every address space, and zero when free payloads were. */
  lemma FrameOk(k: Kernel, owner: Owner, head: nat, pool: Pool, h: Arena)
    requires SystemOk(k, owner, head, pool, h) && CleanSplit(pool, h, FRAME_SIZE)
    requires MallocBytes(k.m, head, pool, h, FRAME_SIZE).Done?
    ensures var (m', h', p) := MallocBytes(k.m, head, pool, h, FRAME_SIZE).value;
            && p >= HeapList.HEADER && SystemOk(k.(m := m'), owner, head, pool, h')
            && h'.live == h.live + [HeapList.Block(p - HeapList.HEADER, FRAME_SIZE + HeapList.HEADER)]
            && SameSpaces(k.m.ram, m'.ram, k.roots) && KeepsPayloads(k.m.ram, m'.ram, h.live)
            && (Pristine(k.m.ram, h.free) ==> Pristine(m'.ram, h'.free) && AllZero(m'.ram, p, p + FRAME_SIZE))
  {
    hide SystemOk, HeapState, Pristine, Walk, Find, Allot, Peek, Untouched, MallocBytes, KeepsPayloads, AllZero, CleanSplit, Extends;
    SystemNumbers(k, owner, head, pool, h);
    MallocBytesOk(k.m, head, pool, h, FRAME_SIZE);
    var (m', h', p) := MallocBytes(k.m, head, pool, h, FRAME_SIZE).value;
    HeapStepIsInvisible(k, owner, head, pool, h, m', h');
  }

  /** After a task creation the new space translates exactly as intended, every older space as before, the stack is the
      last frame taken and zero, every live payload is kept, and the frame is a live block that is zero when free payloads were. */
  ghost predicate Created(pool: Pool, k: Kernel, h: Arena, k': Kernel, h': Arena, frame: nat, pml4: nat, stack: nat, plan: Plan) {
    && k'.roots == k.roots + [pml4]
    && ExactSpace(k'.m.ram, pml4, plan) && SameSpaces(k.m.ram, k'.m.ram, k.roots)
    && frame >= HeapList.HEADER
    && h'.live == h.live + [HeapList.Block(frame - HeapList.HEADER, FRAME_SIZE + HeapList.HEADER)]
    && h'.used > 0 && stack == pool.Frame(h'.used - 1)
    && AllZero(k'.m.ram, stack, stack + PAGE) && KeepsPayloads(k.m.ram, k'.m.ram, h.live)
    && (Pristine(k.m.ram, h.free) ==> Pristine(k'.m.ram, h'.free) && AllZero(k'.m.ram, frame, frame + FRAME_SIZE))
  }

  /** A task creation, whole: as promised, and all invariants of the memory stack hold again. */
  lemma CreateOk(k: Kernel, owner: Owner, head: nat, pool: Pool, h: Arena, info: PagingInfo, start: nat, end: nat,
                 inKernelCode: bool) returns (owner': Owner)
    requires SystemOk(k, owner, head, pool, h) && CleanSplit(pool, h, FRAME_SIZE) && Disjoint(info, start, end, inKernelCode)
    requires Create(k, head, pool, h, info, start, end, inKernelCode).Done?
    ensures var (k', h', frame, stack) := Create(k, head, pool, h, info, start, end, inKernelCode).value;
            && SystemOk(k', owner', head, pool, h') && |k'.roots| == |k.roots| + 1
            && Created(pool, k, h, k', h', frame, k'.roots[|k.roots|], stack, PlanOf(info, start, end, inKernelCode))
  {
    hide SystemOk, HeapState, Pristine, Walk, Peek, RunCalls, ProcessCalls, Disjoint, Claim, KeepsPayloads, AllZero,
      MallocBytes, Layout, UsedPrefix, PlanOf, CleanSplit, ExactSpace, SameSpaces;
    var (m1, h1, frame) := MallocBytes(k.m, head, pool, h, FRAME_SIZE).value;
    var k1 := k.(m := m1);
    FrameOk(k, owner, head, pool, h);
    var owner2, u := SpaceOk(k1, owner, head, pool, h1, info, start, end, inKernelCode);
    owner' := owner2;
    var k2 := RunCalls(k1, ProcessCalls(|k.roots|, info, start, end, inKernelCode)).value;
    var h2 := h1.(used := u);
    var (m3, stack) := Claim(k2.m).value;
    StackOk(k2, owner', head, pool, h2, PlanOf(info, start, end, inKernelCode), |k.roots|);
    SpacesCompose(k.m.ram, m1.ram, k2.m.ram, k.roots, k1.roots);
    SpacesCompose(k.m.ram, k2.m.ram, m3.ram, k.roots, k2.roots);
    KeepsCompose(k.m.ram, m1.ram, k2.m.ram, h.live, h1.live);
    KeepsCompose(k.m.ram, k2.m.ram, m3.ram, h.live, h2.live);
    KeepsCompose(m1.ram, k2.m.ram, m3.ram, h1.live, h1.live);
    FramePayload(m1.ram, m3.ram, h1.live, |h.live|);
  }

  /** The stack page keeps everything, the new space included. */
  lemma StackOk(k: Kernel, owner: Owner, head: nat, pool: Pool, h: Arena, plan: Plan, s: nat)
    requires SystemOk(k, owner, head, pool, h) && Claim(k.m).Done? && s < |k.roots| && ExactSpace(k.m.ram, k.roots[s], plan)
    ensures var (m', stack) := Claim(k.m).value;
            && SystemOk(k.(m := m'), owner, head, pool, h.(used := FirstFree(m'.frames, 0)))
            && ExactSpace(m'.ram, k.roots[s], plan) && SameSpaces(k.m.ram, m'.ram, k.roots)
            && FirstFree(m'.frames, 0) > 0 && stack == pool.Frame(FirstFree(m'.frames, 0) - 1)
            && AllZero(m'.ram, stack, stack + PAGE) && KeepsPayloads(k.m.ram, m'.ram, h.live)
            && (Pristine(k.m.ram, h.free) ==> Pristine(m'.ram, h.free))
  {
    hide SystemOk, HeapState, Pristine, Walk, Intended, Peek, Claim, KeepsPayloads, AllZero, Layout, UsedPrefix;
    ClaimIsInvisible(k, owner, head, pool, h);
    var m' := Claim(k.m).value.0;
    SystemNumbers(k.(m := m'), owner, head, pool, h.(used := h.used + 1));
    PrefixIsFirstFree(m'.frames, h.used + 1);
  }

  lemma SpacesCompose(m: Memory, m1: Memory, m2: Memory, roots: seq<nat>, more: seq<nat>)
    requires SameSpaces(m, m1, roots) && SameSpaces(m1, m2, more) && roots <= more
    ensures SameSpaces(m, m2, roots)
  {
    hide Walk;
    forall s, v: nat | 0 <= s < |roots| ensures Walk(m2, roots[s], v) == Walk(m, roots[s], v) {
      assert more[s] == roots[s];
    }
  }

  class TaskMemory {
    const alloc: FrameAllocator
    const heap: H.Heap
    const tables: PT.PageTables
    ghost var owner: Owner

    constructor (alloc: FrameAllocator, heap: H.Heap, tables: PT.PageTables, ghost owner: Owner)
      requires heap.alloc == alloc && tables.alloc == alloc && alloc.Valid()
      requires SystemOk(tables.Spaces(), owner, heap.head, heap.pool, heap.arena)
      ensures this.alloc == alloc && this.heap == heap && this.tables == tables && this.owner == owner && Valid()
    {
      this.alloc := alloc;
      this.heap := heap;
      this.tables := tables;
      this.owner := owner;
    }

    ghost predicate Valid()
      reads this, alloc, alloc.frameList, heap, tables
    {
      && heap.alloc == alloc && tables.alloc == alloc && alloc.Valid()
      && SystemOk(tables.Spaces(), owner, heap.head, heap.pool, heap.arena)
    }

    /** The memory part of `IntAddTask`: `malloc(sizeof(struct ProcessFrame))`, `CreateProcessPML4` and a
        `PageAlloc` for the stack. */
    method NewTaskMemory(start: nat, end: nat, inKernelCode: bool) returns (o: Outcome<(nat, nat, nat)>)
      requires Valid() && CleanSplit(heap.pool, heap.arena, FRAME_SIZE)
      requires Disjoint(tables.info, start, end, inKernelCode)
      requires NoWrap(tables.info, start, end, inKernelCode)
      modifies this`owner, heap`arena, tables`roots, alloc`ram, alloc.frameList
      ensures match Create(old(tables.Spaces()), heap.head, heap.pool, old(heap.arena), tables.info, start, end, inKernelCode)
              case Panic => o == Panic
              case Fault => o == Fault
              case Done((k, h, frame, stack)) =>
                && Valid() && tables.Spaces() == k && heap.arena == h
                && o.Done? && o.value.0 == frame && o.value.2 == stack
                && Created(heap.pool, old(tables.Spaces()), old(heap.arena), k, h, frame, o.value.1, stack, PlanOf(tables.info, start, end, inKernelCode))
    {
      hide SystemOk, HeapState, NoWrap, Pristine, Find, Allot, Peek, RunCalls, ProcessCalls, Disjoint, Claim, Progress,
        KeepsPayloads, AllZero, MallocBytes, ExactSpace, SameSpaces, PlanOf, CleanSplit, Created;
      ghost var k, h := tables.Spaces(), heap.arena;
      ghost var owner' := owner;
      if Create(k, heap.head, heap.pool, h, tables.info, start, end, inKernelCode).Done? {
        owner' := CreateOk(k, owner, heap.head, heap.pool, h, tables.info, start, end, inKernelCode);
      }
      SystemNumbers(k, owner, heap.head, heap.pool, h);
      var frame := heap.Malloc(FRAME_SIZE);
      if frame.IsFailure() {
        return frame.PropagateFailure();
      }
      assert tables.Spaces() == k.(m := alloc.State());
      var pml4 := tables.CreateProcessPML4(start, end, inKernelCode);
      if pml4.IsFailure() {
        return pml4.PropagateFailure();
      }
      NeverFaults(alloc.State());
      ghost var k2 := tables.Spaces();
      var stack := alloc.PageAlloc();
      if stack.IsFailure() {
        return Panic;
      }
      assert tables.Spaces() == k2.(m := alloc.State());
      heap.arena := heap.arena.(used := FirstFree(alloc.State().frames, 0));
      owner := owner';
      return Done((frame.value, pml4.value, stack.value));
    }
  }

  /** A payload of zeros that is kept stays zero. */
  lemma FramePayload(m: Memory, m': Memory, live: seq<HeapList.Block>, k: nat)
    requires KeepsPayloads(m, m', live) && k < |live|
    ensures AllZero(m, live[k].addr + HeapList.HEADER, live[k].End()) ==> AllZero(m', live[k].addr + HeapList.HEADER, live[k].End())
  {
    hide Peek;
    assert Same(m, m', live[k].addr + HeapList.HEADER, live[k].End());
  }

  lemma NeverFaults(m: Machine)
    ensures !Claim(m).Fault?
  {
  }

  lemma RootsExtend(k: Kernel, owner: Owner, first: nat, info: PagingInfo, start: nat, end: nat, inKernelCode: bool, k': Kernel)
    requires KernelOk(k, owner, first) && Disjoint(info, start, end, inKernelCode)
    requires RunCalls(k, ProcessCalls(|k.roots|, info, start, end, inKernelCode)) == Done(k')
    ensures |k'.roots| == |k.roots| + 1 && k'.roots == k.roots + [k'.roots[|k.roots|]]
  {
    hide RunCalls, ProcessCalls, KernelOk, Disjoint, Walk, Intended;
    ProcessSpaceExact(k, owner, first, info, start, end, inKernelCode, k', 0);
  }
}
