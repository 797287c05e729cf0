/** Short runs that reach the states in which the code fails, so that the failures are not hypothetical. */
module Witnesses {
  import opened Ram
  import opened Outcomes
  import opened Lists
  import opened Frames
  import opened PageFormat
  import opened Paging
  import opened AddressSpaces
  import opened HeapList
  import opened A = Arena
  import opened HeapBytes
  import Q = Requests
  import H = Heap

  const EMPTY_HEAP := Arena([], [], 0, {})

  // ---- malloc

  /** The first small request of an empty heap takes a page of its own. */
  lemma FirstRequest(pool: Pool, n: nat)
    requires pool.count > 0 && n + HEADER < SMALL_LIMIT
    ensures Find(pool, EMPTY_HEAP, n) == Done(Arena([], [Block(pool.first, PAGE)], 1, PageRange(0, 1)))
  {
    var h := AddPages(pool, EMPTY_HEAP, 1, 1);
    assert Without(h.free, 0) == [];
    assert h.pages == PageRange(0, 1);
  }

  /** Two requests in multiples of 16 on an empty heap, with frames to spare: the second follows the null pointer. */
  lemma SecondRequestFaults(pool: Pool)
    requires pool.count >= 2
    ensures Enabled(pool, EMPTY_HEAP, [Request(16), Request(4064)])
    ensures A.Run(pool, EMPTY_HEAP, [Request(16), Request(4064)]) == Fault
  {
    FirstRequest(pool, 16);
    var ops := [Request(16), Request(4064)];
    assert ops[1..] == [Request(4064)];
    var h1 := A.Step(pool, EMPTY_HEAP, Request(16)).value;
    assert h1.free == [Block(pool.first + 32, 4064)] && h1.used == 1;
    assert FirstFit(h1.free, 4064 + HEADER, 0) == 1;
    assert Find(pool, h1, 4064) == Fault;
    assert A.Step(pool, h1, Request(4064)) == Fault;
    assert Enabled(pool, h1, [Request(4064)]);
  }

  /** `malloc(4072)` on an empty heap leaves 8 bytes over, and whatever word stood at the start of the next frame is
      overwritten with 0. */
  lemma SliverReached(m: Machine, head: nat, pool: Pool)
    requires HeapState(m, head, pool, EMPTY_HEAP) && pool.count >= 2
    ensures !CleanSplit(pool, EMPTY_HEAP, 4072)
    ensures MallocBytes(m, head, pool, EMPTY_HEAP, 4072).Done?
    ensures Word(MallocBytes(m, head, pool, EMPTY_HEAP, 4072).value.0.ram, pool.Frame(1)) == 0
  {
    hide FindBytes, Find, HeapState, ArenaOk, Found, SplitWrites, PageRange;
    FirstRequest(pool, 4072);
    FindBytesOk(m, head, pool, EMPTY_HEAP, 4072);
    var (m1, h1) := FindBytes(m, head, pool, EMPTY_HEAP, 4072).value;
    FoundState(m, head, pool, EMPTY_HEAP, m1, h1);
    ReadNode(m1, head, pool, h1, 0);
    StateFrames(m1, head, pool, h1);
    SliverWord(m1.ram, head, Block(pool.first, PAGE), 4088);
  }

  lemma FoundState(m: Machine, head: nat, pool: Pool, h: A.Arena, m': Machine, h': A.Arena)
    requires Found(m, head, pool, h, m', h')
    ensures HeapState(m', head, pool, h')
  {
    hide HeapState, Progress;
  }

  lemma SliverWord(m: Memory, head: nat, b: Block, need: nat)
    requires HEADER <= need && b.size == need + 8 && b.End() + HEADER < WORD_LIMIT
    requires head + HEADER <= b.addr || b.End() + HEADER <= head
    requires NextAt(m, head) == 0
    ensures Word(SplitWrites(m, head, b, need), b.End()) == 0
  {
    SliverOverwritesNeighbour(m, head, b, need);
    hide PutNode, NextAt;
    var put := PutNode(m, head, b.addr + need, 8);
    SetWordReads(put, b.addr, need);
    WordSame(put, SetWord(put, b.addr, need), b.End());
  }

  /** The nodes of 31 files, on an empty heap with frames to spare, end in the null pointer. */
  lemma ThirtyOneFiles(pool: Pool)
    requires pool.count >= 2
    ensures Enabled(pool, EMPTY_HEAP, Q.Repeat(Q.FILE_NODE, 31))
    ensures A.Run(pool, EMPTY_HEAP, Q.Repeat(Q.FILE_NODE, 31)) == Fault
  {
    Q.FilesAtBoot(pool, EMPTY_HEAP, 31);
  }

  /** With 23 files and three tasks on the heap, the frame of the fourth task overwrites the first word of the frame after
      the heap's page. */
  lemma FourthTaskOverwrites(m: Machine, head: nat, pool: Pool, h: A.Arena)
    requires HeapState(m, head, pool, h) && Q.OnePage(pool, h, PAGE - 248) && h.used < pool.count
    ensures MallocBytes(m, head, pool, h, Q.PROCESS_FRAME).Done?
    ensures Word(MallocBytes(m, head, pool, h, Q.PROCESS_FRAME).value.0.ram, h.free[0].End()) == 0
    ensures (h.free[0].End() - pool.first) % PAGE == 0
  {
    hide FindBytes, Find, HeapState, ArenaOk, Found, SplitWrites, PageRange, Allot, NextAt, Word, MallocBytes, Split;
    Q.FromOldPage(pool, h, Q.PROCESS_FRAME);
    H.MallocParts(m, head, pool, h, Q.PROCESS_FRAME);
    FindBytesOk(m, head, pool, h, Q.PROCESS_FRAME);
    var (m1, h1) := FindBytes(m, head, pool, h, Q.PROCESS_FRAME).value;
    FoundState(m, head, pool, h, m1, h1);
    ReadNode(m1, head, pool, h1, 0);
    StateFrames(m1, head, pool, h1);
    FreeInside(m, head, pool, h, 0);
    SliverWord(m1.ram, head, h.free[0], 240);
  }

  lemma FreeInside(m: Machine, head: nat, pool: Pool, h: A.Arena, k: nat)
    requires HeapState(m, head, pool, h) && k < |h.free|
    ensures Inside(h.free[k], pool.first, pool.Frame(h.used)) && h.used <= pool.count
  {
    StateNumbers(m, head, pool, h);
    hide HeapInv, Tiled, Spread, Sum;
  }

  // ---- a 4 KiB mapping inside a 2 MiB one

  /** A step down succeeds while a frame is left, and takes at most one. */
  lemma StepDone(m: Machine, first: nat, t: nat, i: nat, u: nat) returns (u': nat)
    requires Layout(m.frames, first) && UsedPrefix(m.frames, u) && u < |m.frames|
    ensures NextLevel(m, t, i).Done? && u <= u' <= u + 1
    ensures var f := NextLevel(m, t, i).value.0.frames; Layout(f, first) && UsedPrefix(f, u') && |f| == |m.frames|
  {
    hide Entry, Claim, Held;
    u' := u;
    if t != 0 && !Entry(m.ram, t, i).present {
      ClaimExtendsPrefix(m, first, u);
      ClaimSpec(m, first);
      u' := u + 1;
    }
  }

  /** A 2 MiB mapping succeeds while two frames are left. */
  lemma LargeMapDone(m: Machine, first: nat, root: nat, virt: nat, phys: nat, u: nat)
    requires Layout(m.frames, first) && UsedPrefix(m.frames, u) && u + 2 <= |m.frames|
    ensures MapPage(m, root, virt, phys, Size2M, false).Done?
  {
    hide NextLevel, SetLeaf, Index;
    var u1 := StepDone(m, first, root, Index(virt, 0), u);
    var (m1, pdpt) := NextLevel(m, root, Index(virt, 0)).value;
    var u2 := StepDone(m1, first, pdpt, Index(virt, 1), u1);
  }

  const INSIDE: nat := 0x20_5000

  /** A new space, and a 2 MiB mapping in it. */
  function LargeFirst(s: nat): seq<Call> {
    [NewSpace, Map(s, LARGE_PAGE, LARGE_PAGE, Size2M, false)]
  }

  lemma LargeFirstLegal(k: Kernel)
    ensures var calls := LargeFirst(|k.roots|);
            && Legal(k, calls) && Spaces(|k.roots|, calls) == |k.roots| + 1
            && Latest(calls, |k.roots|, INSIDE) == Goal(LARGE_PAGE, Size2M)
  {
    var s := |k.roots|;
    assert LargeFirst(s)[..1] == [NewSpace] && [NewSpace][..0] == [];
    assert Legal(k, [NewSpace]) && Spaces(s, [NewSpace]) == s + 1;
    assert SamePage(INSIDE, LARGE_PAGE, Size2M);
  }

  lemma LargeFirstDone(k: Kernel, first: nat, u: nat)
    requires Layout(k.m.frames, first) && UsedPrefix(k.m.frames, u) && u + 3 <= |k.m.frames|
    ensures RunCalls(k, LargeFirst(|k.roots|)).Done?
  {
    ClaimExtendsPrefix(k.m, first, u);
    ClaimSpec(k.m, first);
    hide Claim, Held, MapPage, Layout, UsedPrefix, Peek;
    var (m1, root) := Claim(k.m).value;
    LargeMapDone(m1, first, root, LARGE_PAGE, LARGE_PAGE, u + 1);
    RunOne(k, [], NewSpace);
    RunOne(k, [] + [NewSpace], Map(|k.roots|, LARGE_PAGE, LARGE_PAGE, Size2M, false));
    assert LargeFirst(|k.roots|) == ([] + [NewSpace]) + [Map(|k.roots|, LARGE_PAGE, LARGE_PAGE, Size2M, false)];
  }

  lemma TwoCalls(k: Kernel, owner: Owner, first: nat, u: nat) returns (owner': Owner)
    requires KernelOk(k, owner, first) && UsedPrefix(k.m.frames, u) && u + 3 <= |k.m.frames|
    ensures RunCalls(k, LargeFirst(|k.roots|)).Done?
    ensures var k' := RunCalls(k, LargeFirst(|k.roots|)).value;
            && KernelOk(k', owner', first) && |k'.roots| == |k.roots| + 1
            && Serves(Hit(k'.m.ram, k'.roots[|k.roots|], INSIDE, 0), LARGE_PAGE, Size2M)
  {
    hide Entry, Legal, Spaces, MapPage, EntriesOk, RunCalls, LargeFirst, Latest, Hit, Serves;
    var s, calls := |k.roots|, LargeFirst(|k.roots|);
    LargeFirstLegal(k);
    LargeFirstDone(k, first, u);
    owner' := RunRefines(k, owner, first, calls);
    var k' := RunCalls(k, calls).value;
    assert Meets(k, calls, s, INSIDE, Hit(k'.m.ram, k'.roots[s], INSIDE, 0));
  }

  /** Three calls on any kernel with three frames left: the third reports success, and the address it asked to map
      to 0 is still translated by the second. */
  lemma SmallRequestIgnored(k: Kernel, owner: Owner, first: nat, u: nat)
    requires KernelOk(k, owner, first) && UsedPrefix(k.m.frames, u) && u + 3 <= |k.m.frames|
    ensures RunCalls(k, LargeFirst(|k.roots|)).Done?
    ensures var k' := RunCalls(k, LargeFirst(|k.roots|)).value;
            && |k'.roots| == |k.roots| + 1
            && MapPage(k'.m, k'.roots[|k.roots|], INSIDE, 0, Size4K, false).Done?
            && var (m', ok) := MapPage(k'.m, k'.roots[|k.roots|], INSIDE, 0, Size4K, false).value;
               ok && Walk(m'.ram, k'.roots[|k.roots|], INSIDE) == To(INSIDE)
  {
    hide Entry, RunCalls, MapPage, TablesOk, SetEntry, Hit, LargeFirst;
    var owner' := TwoCalls(k, owner, first, u);
    var k' := RunCalls(k, LargeFirst(|k.roots|)).value;
    var root := k'.roots[|k.roots|];
    assert IsRoot(owner', root);
    assert BigLeaf(k'.m.ram, root, INSIDE) && Mistaken(k'.m.ram, root, INSIDE) == LARGE_PAGE;
    assert Index(INSIDE, 0) == 0 && Index(INSIDE, 1) == 0 && Index(INSIDE, 2) == 1 && Index(INSIDE, 3) == 5;
    assert !OnPath(k'.m.ram, root, INSIDE, LARGE_PAGE, 5);
    SmallInsideLarge(k'.m, owner', first, root, INSIDE, 0, false);
    LargePageTranslates(k'.m.ram, root, LARGE_PAGE, INSIDE);
    var e := LeafEntry(Entry(k'.m.ram, LARGE_PAGE, 5), 0, Size4K, false);
    OffPathHit(k'.m, owner', first, root, INSIDE, LARGE_PAGE, 5, e);
  }
}
