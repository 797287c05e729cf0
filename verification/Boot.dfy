/** What the kernel can do from boot on: how many files and tasks it can hold before `malloc` follows the null pointer
    (src/mm/heapalloc/heap.c, src/ramdisk/tar.c, src/multitasking/scheduler.c). */
module Boot {
  import opened Ram
  import opened Outcomes
  import opened Frames
  import opened Paging
  import opened AddressSpaces
  import opened ProcessSpace
  import HeapList
  import opened A = Arena
  import opened HeapBytes
  import opened Requests
  import opened System
  import opened TaskMemory
  import opened TaskTrees

  /** While the heap is used for tasks alone, a creation follows the null pointer exactly when it is the 18th and a frame
      is left; every other one succeeds or panics for want of frames. */
  lemma CreateFaultsIff(k: Kernel, owner: Owner, head: nat, pool: Pool, h: A.Arena, info: PagingInfo, t: Task, j: nat)
    requires SystemOk(k, owner, head, pool, h) && Place(h, FRAME_SIZE, j) && Disjoint(info, t.start, t.end, t.inKernelCode)
    ensures CleanSplit(pool, h, FRAME_SIZE)
    ensures Create(k, head, pool, h, info, t.start, t.end, t.inKernelCode).Fault? <==> j == 17 && h.used < pool.count
    ensures Create(k, head, pool, h, info, t.start, t.end, t.inKernelCode).Done? ==>
              j < 17 && Place(Create(k, head, pool, h, info, t.start, t.end, t.inKernelCode).value.1, FRAME_SIZE, j + 1)
  {
    hide SystemOk, Place, PerPage, Rest, Regular, Next, CleanSplit, Disjoint, MallocBytes, RunCalls, ProcessCalls, Claim,
      Allot, HeapState, Progress, Create;
    FrameNumbers();
    SystemNumbers(k, owner, head, pool, h);
    NextPlace(FRAME_SIZE, j);
    PlaceStep(pool, h, FRAME_SIZE, j);
    PlaceBound(h, FRAME_SIZE, j);
    CreateParts(k, head, pool, h, info, t);
    MallocBytesOk(k.m, head, pool, h, FRAME_SIZE);
    if MallocBytes(k.m, head, pool, h, FRAME_SIZE).Done? {
      var (m1, h1, p) := MallocBytes(k.m, head, pool, h, FRAME_SIZE).value;
      FrameOk(k, owner, head, pool, h);
      SpaceNeverFaults(k.(m := m1), owner, head, pool, h1, info, t);
      if Create(k, head, pool, h, info, t.start, t.end, t.inKernelCode).Done? {
        OtherFrames(h1, Create(k, head, pool, h, info, t.start, t.end, t.inKernelCode).value.1.used, FRAME_SIZE, j + 1);
      }
    }
  }

  lemma FrameNumbers()
    ensures PerPage(FRAME_SIZE) == 17 && Rest(FRAME_SIZE) == 16 && Regular(FRAME_SIZE) && FRAME_SIZE <= MAX_REQUEST
  {
  }

  /** The parts of a creation. */
  lemma CreateParts(k: Kernel, head: nat, pool: Pool, h: A.Arena, info: PagingInfo, t: Task)
    ensures var o := Create(k, head, pool, h, info, t.start, t.end, t.inKernelCode);
            match MallocBytes(k.m, head, pool, h, FRAME_SIZE)
            case Panic => o == Panic
            case Fault => o == Fault
            case Done((m1, h1, p)) =>
              match RunCalls(k.(m := m1), ProcessCalls(|k.roots|, info, t.start, t.end, t.inKernelCode))
              case Panic => o == Panic
              case Fault => o == Fault
              case Done(k2) =>
                match Claim(k2.m)
                case Panic => o == Panic
                case Fault => o == Fault
                case Done((m3, stack)) => o == Done((k2.(m := m3), h1.(used := FirstFree(m3.frames, 0)), p, stack))
  {
    hide MallocBytes, RunCalls, ProcessCalls, Claim, FirstFree;
  }

  lemma SpaceNeverFaults(k: Kernel, owner: Owner, head: nat, pool: Pool, h: A.Arena, info: PagingInfo, t: Task)
    requires SystemOk(k, owner, head, pool, h) && Disjoint(info, t.start, t.end, t.inKernelCode)
    ensures var o := RunCalls(k, ProcessCalls(|k.roots|, info, t.start, t.end, t.inKernelCode));
            !o.Fault? && (o.Done? ==> !Claim(o.value.m).Fault?)
  {
    hide SystemOk, RunCalls, ProcessCalls, Disjoint, KernelOk, Legal;
    SystemNumbers(k, owner, head, pool, h);
    ProcessLegal(k, info, t.start, t.end, t.inKernelCode);
    var calls := ProcessCalls(|k.roots|, info, t.start, t.end, t.inKernelCode);
    var owner' := RunRefines(k, owner, pool.first, calls);
    if RunCalls(k, calls).Done? {
      NeverFaults(RunCalls(k, calls).value.m);
    }
  }

  lemma OtherFrames(h: A.Arena, u: nat, n: nat, i: nat)
    requires Place(h, n, i)
    ensures Place(h.(used := u), n, i)
  {
  }

  /** Task creations one after the other. */
  ghost function CreateAll(k: Kernel, head: nat, pool: Pool, h: A.Arena, info: PagingInfo, tasks: seq<Task>): Outcome<(Kernel, A.Arena)>
    decreases |tasks|
  {
    if tasks == [] then Done((k, h))
    else
      var (k', h', _, _) :- Create(k, head, pool, h, info, tasks[0].start, tasks[0].end, tasks[0].inKernelCode);
      CreateAll(k', head, pool, h', info, tasks[1..])
  }

  lemma {:induction false} CreateAllFrom(k: Kernel, owner: Owner, head: nat, pool: Pool, h: A.Arena, info: PagingInfo, tasks: seq<Task>, j: nat)
    requires SystemOk(k, owner, head, pool, h) && Place(h, FRAME_SIZE, j) && AllDisjoint(info, tasks)
    ensures CreateAll(k, head, pool, h, info, tasks).Done? ==> j + |tasks| <= 17
    ensures CreateAll(k, head, pool, h, info, tasks).Fault? ==> j + |tasks| > 17
    decreases |tasks|
  {
    hide SystemOk, Place, PerPage, Create, Disjoint, CleanSplit, Created, Rest, Regular;
    FrameNumbers();
    PlaceBound(h, FRAME_SIZE, j);
    if tasks != [] {
      var t := tasks[0];
      assert t in tasks && forall u :: u in tasks[1..] ==> u in tasks;
      CreateFaultsIff(k, owner, head, pool, h, info, t, j);
      if Create(k, head, pool, h, info, t.start, t.end, t.inKernelCode).Done? {
        var (k', h', _, _) := Create(k, head, pool, h, info, t.start, t.end, t.inKernelCode).value;
        var owner' := CreateOk(k, owner, head, pool, h, info, t.start, t.end, t.inKernelCode);
        CreateAllFrom(k', owner', head, pool, h', info, tasks[1..], j + 1);
      }
    }
  }

  /** With a heap used for tasks alone the kernel holds at most 17 of them, however much memory there is: more are never
      all created, and no fewer ever follow the null pointer. */
  lemma AtMostSeventeenTasks(k: Kernel, owner: Owner, head: nat, pool: Pool, h: A.Arena, info: PagingInfo, tasks: seq<Task>)
    requires SystemOk(k, owner, head, pool, h) && h.free == [] && AllDisjoint(info, tasks)
    ensures CreateAll(k, head, pool, h, info, tasks).Done? ==> |tasks| <= 17
    ensures CreateAll(k, head, pool, h, info, tasks).Fault? ==> |tasks| > 17
  {
    hide SystemOk, CreateAll, AllDisjoint;
    FrameNumbers();
    assert Place(h, FRAME_SIZE, 0);
    CreateAllFrom(k, owner, head, pool, h, info, tasks, 0);
  }
}
