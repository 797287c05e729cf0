/** `malloc`, `calloc` and `free` as they run (src/mm/heapalloc/heap.c), proved to compute the functions of
    `HeapBytes` on the shared memory. */
module Heap {
  import opened Ram
  import opened Outcomes
  import opened Lists
  import opened Frames
  import opened HeapList
  import opened Arena
  import opened HeapBytes

  class Heap {
    const alloc: FrameAllocator
    const head: nat // the address of the static list head
    ghost const pool: Pool
    ghost var arena: Arena

    /** The heap starts with an empty list and no pages, whatever frames are already taken. */
    constructor (alloc: FrameAllocator, head: nat, ghost first: nat, ghost used: nat)
      requires alloc.Valid() && Layout(alloc.frameList[..], first) && UsedPrefix(alloc.frameList[..], used) && first > 0
      requires HeadOk(head, first, first + PAGE * alloc.frameList.Length) && NextAt(alloc.ram, head) == 0
      ensures this.alloc == alloc && this.head == head && pool == Pool(first, alloc.frameList.Length)
      ensures Valid() && arena == Arena([], [], used, {}) && Pristine(alloc.ram, [])
    {
      this.alloc := alloc;
      this.head := head;
      pool := Pool(first, alloc.frameList.Length);
      arena := Arena([], [], used, {});
      new;
      assert Tiled(pool, arena);
      assert ArenaOk(pool, arena);
      hide ArenaOk, NextAt;
    }

    ghost predicate Valid()
      reads this, alloc, alloc.frameList
    {
      alloc.Valid() && HeapState(alloc.State(), head, pool, arena)
    }

    /** `CreateNode`. */
    method CreateNode(addr: nat, size: nat)
      modifies alloc`ram
      ensures alloc.ram == PutNode(old(alloc.ram), head, addr, size)
    {
      alloc.ram := SetWord(alloc.ram, addr + 8, NextAt(alloc.ram, head));
      alloc.ram := SetWord(alloc.ram, addr, size);
      alloc.ram := SetWord(alloc.ram, head + 8, addr);
    }

    /** The frame-taking part of `CombineBlocks`: one page, then one for every 4096 bytes begun. The first one's
        address is where the block begins. */
    method TakeFrames(size: nat, ghost u: nat) returns (o: Outcome<(nat, nat)>)
      requires alloc.Valid() && Layout(alloc.frameList[..], pool.first) && alloc.frameList.Length == pool.count
      requires UsedPrefix(alloc.frameList[..], u) && size <= MAX_REQUEST
      modifies alloc`ram, alloc.frameList
      ensures alloc.Valid()
      ensures match ClaimMany(old(alloc.State()), BlockPages(size) + 1)
              case Done(m) => o == Done((pool.Frame(u), BlockPages(size))) && alloc.State() == m
              case _ => o == Panic
    {
      hide Claim, ClaimMany, Layout, UsedPrefix;
      ghost var m0 := alloc.State();
      NextFrame(m0, pool, u, 0);
      var initial := alloc.PageAlloc();
      if initial.IsFailure() {
        ClaimManyPanics(m0, 1, BlockPages(size) + 1);
        return Panic;
      }
      var numPages := 0;
      var i := 0;
      while i < size
        invariant i == PAGE * numPages && 0 <= numPages <= BlockPages(size)
        invariant alloc.Valid() && ClaimMany(m0, 1 + numPages) == Done(alloc.State())
        decreases size - i
      {
        NextFrame(m0, pool, u, 1 + numPages);
        var page := alloc.PageAlloc();
        if page.IsFailure() {
          ClaimManyPanics(m0, 2 + numPages, BlockPages(size) + 1);
          return Panic;
        }
        assert page.value != 0; // so the failure path with PageFree is never taken
        numPages := numPages + 1;
        i := i + PAGE;
      }
      return Done((initial.value, numPages));
    }

    /** `CombineBlocks`: the pages it takes are consecutive, so its block covers only pages it took;
        one page stays spare. */
    method CombineBlocks(size: nat) returns (o: Outcome<()>)
      requires Valid() && 0 < size <= MAX_REQUEST
      modifies this`arena, alloc`ram, alloc.frameList
      ensures match Grow(old(alloc.State()), head, pool, old(arena).used, BlockPages(size), BlockPages(size) + 1)
              case Done(m) =>
                && o == Done(()) && Valid() && alloc.State() == m
                && arena == AddPages(pool, old(arena), BlockPages(size), BlockPages(size) + 1)
              case _ => o == Panic
    {
      hide HeapState, Progress, ClaimMany, PutNode;
      StateFrames(alloc.State(), head, pool, arena);
      StateNumbers(alloc.State(), head, pool, arena);
      GrowOk(alloc.State(), head, pool, arena, BlockPages(size), BlockPages(size) + 1);
      var taken := TakeFrames(size, arena.used);
      if taken.IsFailure() {
        return Panic;
      }
      var (initial, numPages) := taken.value;
      CreateNode(initial, numPages * PAGE);
      arena := AddPages(pool, arena, numPages, numPages + 1);
      return Done(());
    }

    /** The small growth of `FindAndRemoveNode`: one page at the head of the list. */
    method AddPage() returns (o: Outcome<()>)
      requires Valid()
      modifies this`arena, alloc`ram, alloc.frameList
      ensures match Grow(old(alloc.State()), head, pool, old(arena).used, 1, 1)
              case Done(m) => o == Done(()) && Valid() && alloc.State() == m && arena == AddPages(pool, old(arena), 1, 1)
              case _ => o == Panic
    {
      hide HeapState, Progress, PutNode;
      hide Claim, ClaimMany, Layout, UsedPrefix;
      StateFrames(alloc.State(), head, pool, arena);
      StateNumbers(alloc.State(), head, pool, arena);
      GrowOk(alloc.State(), head, pool, arena, 1, 1);
      NextFrame(alloc.State(), pool, arena.used, 0);
      var newblock := alloc.PageAlloc();
      if newblock.IsFailure() {
        return Panic;
      }
      CreateNode(newblock.value, PAGE);
      arena := AddPages(pool, arena, 1, 1);
      return Done(());
    }

    /** Takes the i-th block out of the list. */
    method RemoveNext(current: nat, ghost i: nat)
      requires Valid() && i < |arena.free| && current == Before(head, arena.free, i)
      modifies this`arena, alloc`ram
      ensures Valid() && arena == Take(old(arena), i)
      ensures alloc.State() == old(alloc.State()).(ram := Unlink(old(alloc.ram), Before(head, old(arena).free, i)))
    {
      hide HeapState, NextAt;
      StateAfterTake(alloc.State(), head, pool, arena, i);
      alloc.ram := SetWord(alloc.ram, current + 8, NextAt(alloc.ram, NextAt(alloc.ram, current)));
      arena := Take(arena, i);
    }

    /** `FindAndRemoveNode`: the search and growth loop computes `FindBytes` and terminates, because every
        turn either moves down the list or takes frames. */
    method FindAndRemoveNode(size: nat) returns (o: Outcome<nat>)
      requires Valid() && size <= MAX_REQUEST
      modifies this`arena, alloc`ram, alloc.frameList
      ensures match FindBytes(old(alloc.State()), head, pool, old(arena), size)
              case Panic => o == Panic
              case Fault => o == Fault
              case Done((m, h)) => Valid() && alloc.State() == m && arena == h && o == Done(h.live[|h.live| - 1].addr)
    {
      hide HeapState, SizeAt, NextAt, FindBytes, Grow, Unlink, Take, FirstFit;
      var current := head;
      ghost var i := 0;
      while true
        invariant Valid() && 0 <= i <= |arena.free| && current == Before(head, arena.free, i)
        invariant TooSmall(arena.free, i, size + HEADER)
        invariant FindBytes(alloc.State(), head, pool, arena, size) == FindBytes(old(alloc.State()), head, pool, old(arena), size)
        decreases pool.count - arena.used, |arena.free| - i
      {
        StateNumbers(alloc.State(), head, pool, arena);
        ReadNode(alloc.State(), head, pool, arena, i);
        if NextAt(alloc.ram, current) == 0 {
          if size + HEADER >= SMALL_LIMIT {
            FindLarge(alloc.State(), head, pool, arena, size);
            var grown := CombineBlocks(size);
            if grown.IsFailure() {
              return Panic;
            }
            current := head;
            i := 0;
            continue;
          } else {
            FindSmall(alloc.State(), head, pool, arena, size);
            ghost var empty := arena.free == [];
            var grown := AddPage();
            if grown.IsFailure() {
              return Panic;
            }
            ReadNode(alloc.State(), head, pool, arena, if i == 0 then 0 else i + 1);
            if NextAt(alloc.ram, current) == 0 {
              assert !empty;
              return Fault; // current->next->size with current->next == NULL
            }
            assert empty;
          }
        }
        var next := NextAt(alloc.ram, current);
        ReadNode(alloc.State(), head, pool, arena, i);
        if HEADER + size <= SizeAt(alloc.ram, next) {
          FindFit(alloc.State(), head, pool, arena, size, i);
          RemoveNext(current, i);
          return Done(next);
        }
        current := next;
        i := i + 1;
      }
    }

    /** `_alloc` with alignment 1, which is `malloc`. Unless the kernel panics or faults it returns the
        payload of a block of exactly size + 16 bytes; every live payload keeps its bytes; in runs without `free`
        the new payload is zero. */
    method Malloc(size: nat) returns (o: Outcome<nat>)
      requires Valid() && size <= MAX_REQUEST && CleanSplit(pool, arena, size)
      modifies this`arena, alloc`ram, alloc.frameList
      ensures match MallocBytes(old(alloc.State()), head, pool, old(arena), size)
              case Panic => o == Panic && Allot(pool, old(arena), size) == Panic
              case Fault => o == Fault && Allot(pool, old(arena), size) == Fault
              case Done((m, h, p)) =>
                && Valid() && alloc.State() == m && arena == h && o == Done(p)
                && Allot(pool, old(arena), size) == Done((h, p))
                && h.live != [] && h.live[|h.live| - 1] == Block(p - HEADER, size + HEADER)
                && Progress(old(alloc.ram), alloc.ram, head, pool, old(arena), arena)
                && (Pristine(old(alloc.ram), old(arena).free) ==> AllZero(alloc.ram, p, p + size))
    {
      hide HeapState, Find, FindBytes, Pristine, AllZero, Progress, SizeAt, SetWord, Found, MallocBytes, PutNode, Allot;
      ghost var m0, h0 := alloc.State(), arena;
      MallocBytesOk(m0, head, pool, h0, size);
      MallocParts(m0, head, pool, h0, size);
      var found := FindAndRemoveNode(size);
      if found.IsFailure() {
        return found;
      }
      var node := found.value;
      ghost var last := |arena.live| - 1;
      ReadLive(alloc.State(), head, pool, arena, last);
      var base := node + HEADER;
      var end := base + size;
      var innerSize := SizeAt(alloc.ram, node) - HEADER;
      var extraSize := innerSize - size;
      if extraSize > 0 {
        KeptSize(alloc.State(), head, pool, arena, size);
        CreateNode(end, extraSize);
        alloc.ram := SetWord(alloc.ram, node, SizeAt(alloc.ram, node) - extraSize);
      }
      arena := Split(arena, size);
      return Done(base);
    }

    /** `calloc`: `malloc`, then zeroes the payload whatever its history. */
    method Calloc(size: nat) returns (o: Outcome<nat>)
      requires Valid() && size <= MAX_REQUEST && CleanSplit(pool, arena, size)
      modifies this`arena, alloc`ram, alloc.frameList
      ensures match Allot(pool, old(arena), size)
              case Panic => o == Panic
              case Fault => o == Fault
              case Done((h, p)) =>
                && Valid() && arena == h && o == Done(p) && AllZero(alloc.ram, p, p + size)
                && Progress(old(alloc.ram), alloc.ram, head, pool, old(arena), arena)
    {
      hide HeapState, Find, Pristine, Progress, Allot, MallocBytes, CleanSplit;
      ghost var m0, h0 := alloc.State(), arena;
      MallocBytesOk(m0, head, pool, h0, size);
      o := Malloc(size);
      if o.Done? {
        ghost var m := alloc.State();
        alloc.ram := MemSet(alloc.ram, o.value, 0, size);
        CallocProgress(m0.ram, h0, m, alloc.ram, head, pool, arena);
      }
    }

    /** `free`: reads the size in front of the pointer and gives back exactly the extent handed out. No live
        payload changes, not even the one given back. */
    method Free(addr: nat)
      requires Valid() && IsLive(arena, addr)
      modifies this`arena, alloc`ram
      ensures addr >= HEADER && alloc.State() == FreeBytes(old(alloc.State()), head, addr)
      ensures Valid() && arena == GiveBack(old(arena), addr)
      ensures arena.free[0] == Block(addr - HEADER, SizeAt(old(alloc.ram), addr - HEADER))
      ensures Untouched(old(alloc.ram), alloc.ram, head, pool, old(arena)) && Extends(old(arena), arena)
      ensures KeepsPayloads(old(alloc.ram), alloc.ram, old(arena).live)
    {
      hide HeapState, SizeAt, LiveIndex, Untouched, KeepsPayloads, GiveBack, PutNode, Extends, IsLive;
      FreeBytesOk(alloc.State(), head, pool, arena, addr);
      var prevNode := addr - HEADER;
      CreateNode(prevNode, SizeAt(alloc.ram, prevNode));
      arena := GiveBack(arena, addr);
    }

    /** A client stores a byte in the payload of a block it holds: no other payload changes. */
    method ClientWrite(a: nat, v: Byte, ghost k: nat)
      requires Valid() && k < |arena.live| && arena.live[k].addr + HEADER <= a < arena.live[k].End()
      modifies alloc`ram
      ensures Valid() && alloc.ram == old(alloc.ram)[a := v]
      ensures Pristine(old(alloc.ram), arena.free) ==> Pristine(alloc.ram, arena.free)
      ensures Untouched(old(alloc.ram), alloc.ram, head, pool, arena)
      ensures KeepsPayloads(old(alloc.ram), alloc.ram, Without(arena.live, k))
    {
      hide HeapState, Pristine, Untouched, KeepsPayloads;
      PayloadWrites(alloc.State(), alloc.ram[a := v], head, pool, arena, k);
      alloc.ram := alloc.ram[a := v];
    }
  }

  /** `malloc` after the search. */
  lemma MallocParts(m: Machine, head: nat, pool: Pool, h: Arena, n: nat)
    ensures match FindBytes(m, head, pool, h, n)
            case Panic => MallocBytes(m, head, pool, h, n) == Panic
            case Fault => MallocBytes(m, head, pool, h, n) == Fault
            case Done((m1, h1)) =>
              && h1.live != [] && n + HEADER <= h1.live[|h1.live| - 1].size
              && var b := h1.live[|h1.live| - 1];
                 MallocBytes(m, head, pool, h, n) ==
                   Done((if Leftover(h1, n) == 0 then m1 else m1.(ram := SplitWrites(m1.ram, head, b, n + HEADER)),
                         Split(h1, n), b.addr + HEADER))
  {
    hide FindBytes, Find, SplitWrites, Split;
  }

  ghost predicate TooSmall(free: seq<Block>, i: nat, need: nat)
    requires i <= |free|
  {
    forall j :: 0 <= j < i ==> free[j].size < need
  }

  lemma FindFit(m: Machine, head: nat, pool: Pool, h: Arena, n: nat, i: nat)
    requires i <= |h.free| && TooSmall(h.free, i, n + HEADER)
    requires i < |h.free| && n + HEADER <= h.free[i].size
    ensures FindBytes(m, head, pool, h, n) == Done((m.(ram := Unlink(m.ram, Before(head, h.free, i))), Take(h, i)))
    ensures Take(h, i).live != [] && Take(h, i).live[|Take(h, i).live| - 1].addr == h.free[i].addr
  {
    hide Unlink;
    assert FirstFit(h.free, n + HEADER, 0) == i;
  }

  lemma FindLarge(m: Machine, head: nat, pool: Pool, h: Arena, n: nat)
    requires HeapState(m, head, pool, h)
    requires TooSmall(h.free, |h.free|, n + HEADER) && n + HEADER >= SMALL_LIMIT
    ensures FindBytes(m, head, pool, h, n) ==
              match Grow(m, head, pool, h.used, BlockPages(n), BlockPages(n) + 1)
              case Done(m1) => FindBytes(m1, head, pool, AddPages(pool, h, BlockPages(n), BlockPages(n) + 1), n)
              case Panic => Panic
              case Fault => Fault
    ensures !Grow(m, head, pool, h.used, BlockPages(n), BlockPages(n) + 1).Fault?
    ensures Grow(m, head, pool, h.used, BlockPages(n), BlockPages(n) + 1).Done? ==> h.used + BlockPages(n) + 1 <= pool.count
  {
    hide HeapState, Progress, Grow;
    assert FirstFit(h.free, n + HEADER, 0) == |h.free|;
    GrowOk(m, head, pool, h, BlockPages(n), BlockPages(n) + 1);
  }

  /** A small request without a fit: the page is inserted, and served only if the list was empty. */
  lemma FindSmall(m: Machine, head: nat, pool: Pool, h: Arena, n: nat)
    requires HeapState(m, head, pool, h)
    requires TooSmall(h.free, |h.free|, n + HEADER) && n + HEADER < SMALL_LIMIT
    ensures FindBytes(m, head, pool, h, n) ==
              match Grow(m, head, pool, h.used, 1, 1)
              case Done(m1) => if h.free == [] then FindBytes(m1, head, pool, AddPages(pool, h, 1, 1), n) else Fault
              case Panic => Panic
              case Fault => Fault
    ensures !Grow(m, head, pool, h.used, 1, 1).Fault?
    ensures Grow(m, head, pool, h.used, 1, 1).Done? ==> h.used + 1 <= pool.count
  {
    hide HeapState, Progress, Grow, Unlink;
    assert FirstFit(h.free, n + HEADER, 0) == |h.free|;
    GrowOk(m, head, pool, h, 1, 1);
    if h.used < pool.count && h.free == [] {
      var h' := AddPages(pool, h, 1, 1);
      assert FirstFit(h'.free, n + HEADER, 0) == 0;
    }
  }

  lemma CallocProgress(m0: Memory, h0: Arena, m: Machine, ram: Memory, head: nat, pool: Pool, h: Arena)
    requires HeapState(m, head, pool, h) && Progress(m0, m.ram, head, pool, h0, h) && |h.live| == |h0.live| + 1
    requires var b := h.live[|h0.live|]; forall a :: !(b.addr + HEADER <= a < b.End()) ==> Peek(ram, a) == Peek(m.ram, a)
    ensures HeapState(m.(ram := ram), head, pool, h) && Progress(m0, ram, head, pool, h0, h)
  {
    var k := |h0.live|;
    PayloadWrites(m, ram, head, pool, h, k);
    StateNumbers(m, head, pool, h);
    hide HeapState, Untouched, Pristine, Peek, KeepsPayloads;
    UntouchedCompose(m0, m.ram, ram, head, pool, h0, h);
    assert Without(h.live, k) == h0.live;
    KeepsCompose(m0, m.ram, ram, h0.live, h0.live);
  }
}
