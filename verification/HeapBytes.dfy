/** `malloc` and `free` on the bytes of the machine (src/mm/heapalloc/heap.c): nodes linked and unlinked in
    the frames themselves, proved to refine the abstract machine of `Arena`. */
module HeapBytes {
  import opened Ram
  import opened Outcomes
  import opened Lists
  import opened Frames
  import opened HeapList
  import opened Arena

  /** The payloads of all free blocks are zero. */
  ghost predicate Pristine(m: Memory, free: seq<Block>) {
    forall i :: 0 <= i < |free| ==> AllZero(m, free[i].addr + HEADER, free[i].End())
  }

  /** What a heap operation leaves alone: all bytes but the list head, the heap's own pages and
      frames that nobody held. */
  ghost predicate Untouched(m: Memory, m': Memory, head: nat, pool: Pool, h: Arena) {
    forall a ::
      !(head <= a < head + HEADER) && !InPages(pool, h.pages, a) && !(pool.Frame(h.used) <= a < pool.Frame(pool.count))
      ==> Peek(m', a) == Peek(m, a)
  }

  // ---- growth

  /** Taking frames that no block uses keeps the heap as it is. */
  lemma FramesTaken(m: Memory, m': Memory, head: nat, lo: nat, hi: nat, hi': nat, free: seq<Block>, live: seq<Block>)
    requires HeapInv(m, head, lo, hi, free, live) && hi <= hi' && HeadOk(head, lo, hi')
    requires forall a :: !(hi <= a < hi') ==> Peek(m', a) == Peek(m, a)
    ensures HeapInv(m', head, lo, hi', free, live)
    ensures Pristine(m, free) ==> Pristine(m', free)
  {
    assert AllInside(free, lo, hi') && AllInside(live, lo, hi');
    assert forall i :: 0 <= i < |free| ==> Inside(free[i], lo, hi);
    assert forall i :: 0 <= i < |live| ==> Inside(live[i], lo, hi);
    OtherWrites(m, m', head, lo, hi, free, live);
  }

  /** A block of fresh zero frames joins the free list. */
  lemma FreshNode(m: Memory, head: nat, lo: nat, mid: nat, hi: nat, free: seq<Block>, live: seq<Block>, b: Block)
    requires HeapInv(m, head, lo, hi, free, live)
    requires AllInside(free, lo, mid) && AllInside(live, lo, mid) && lo <= mid <= b.addr && b.End() <= hi && HEADER <= b.size
    ensures HeapInv(PutNode(m, head, b.addr, b.size), head, lo, hi, [b] + free, live)
    ensures Pristine(m, free) && AllZero(m, b.addr, b.End()) ==> Pristine(PutNode(m, head, b.addr, b.size), [b] + free)
  {
    PutNodeOk(m, head, lo, hi, free, live, b);
    hide HeapInv;
    PutNodePristine(m, head, lo, hi, free, b);
  }

  lemma PutNodePristine(m: Memory, head: nat, lo: nat, hi: nat, free: seq<Block>, b: Block)
    requires HeadOk(head, lo, hi) && AllInside(free, lo, hi) && Inside(b, lo, hi) && ApartFrom(b, free)
    ensures Pristine(m, free) && AllZero(m, b.addr + HEADER, b.End()) ==>
              Pristine(PutNode(m, head, b.addr, b.size), [b] + free)
  {
    PutNodeBytes(m, head, b.addr, b.size);
    hide PutNode, SizeAt, NextAt, Peek;
    var free' := [b] + free;
    var m' := PutNode(m, head, b.addr, b.size);
    if Pristine(m, free) && AllZero(m, b.addr + HEADER, b.End()) {
      forall i | 0 <= i < |free'| ensures AllZero(m', free'[i].addr + HEADER, free'[i].End()) {
        if i > 0 {
          assert free'[i] == free[i - 1];
          assert Apart(b, free[i - 1]) && Inside(free[i - 1], lo, hi);
          assert AllZero(m, free[i - 1].addr + HEADER, free[i - 1].End());
        }
      }
    }
  }

  // ---- splitting

  /** The writes of `_alloc` after the search, when something is left over. */
  function SplitWrites(m: Memory, head: nat, b: Block, need: nat): Memory
    requires need <= b.size
  {
    SetWord(PutNode(m, head, b.addr + need, b.size - need), b.addr, need)
  }

  /** The block found, without its tail, and the tail: both clear of everything else. */
  lemma SplitFacts(m: Memory, head: nat, lo: nat, hi: nat, free: seq<Block>, init: seq<Block>, b: Block, need: nat)
    requires HeapInv(m, head, lo, hi, free, init + [b]) && HEADER <= need && need + HEADER <= b.size
    ensures var t, c := Block(b.addr + need, b.size - need), Block(b.addr, need);
            && HeapInv(m, head, lo, hi, free, init)
            && Inside(b, lo, hi) && Inside(t, lo, hi) && Inside(c, lo, hi) && ApartFrom(b, free)
            && ApartFrom(t, free) && ApartFrom(t, init) && ApartFrom(c, [t] + free) && ApartFrom(c, init)
  {
    var live := init + [b];
    assert live[|init|] == b;
    assert Without(live, |init|) == init;
    Forget(m, head, lo, hi, free, live, |init|);
    assert Spread(free, live);
    hide HeapInv, Spread;
    SplitSpread(free, init, b, need);
  }

  lemma SplitHeap(m: Memory, head: nat, lo: nat, hi: nat, free: seq<Block>, init: seq<Block>, b: Block, need: nat)
    requires HeapInv(m, head, lo, hi, free, init + [b]) && HEADER <= need && need + HEADER <= b.size
    ensures HeapInv(SplitWrites(m, head, b, need), head, lo, hi,
                    [Block(b.addr + need, b.size - need)] + free, init + [Block(b.addr, need)])
  {
    hide HeapInv, Inside, ApartFrom, PutNode, SetWord;
    var t, c := Block(b.addr + need, b.size - need), Block(b.addr, need);
    SplitFacts(m, head, lo, hi, free, init, b, need);
    PutNodeOk(m, head, lo, hi, free, init, t);
    AdoptOk(PutNode(m, head, t.addr, t.size), head, lo, hi, [t] + free, init, c);
  }

  /** The failing family: when the leftover is 8 bytes, `CreateNode` writes its `next` field over the size
      word of whatever follows the block. */
  lemma SliverOverwritesNeighbour(m: Memory, head: nat, b: Block, need: nat)
    requires need + 8 == b.size && (head + HEADER <= b.addr || b.End() + HEADER <= head) && b.End() < WORD_LIMIT
    ensures SizeAt(PutNode(m, head, b.addr + need, 8), b.End()) == NextAt(m, head)
  {
    PutNodeBytes(m, head, b.addr + need, 8);
    assert b.addr + need + 8 == b.End();
  }

  /** Inserting what is left of a block changes no byte outside the block and the list head. */
  ghost predicate LeftoverContained(m: Memory, head: nat, b: Block, need: nat)
    requires need <= b.size
  {
    forall a :: !In(b, a) && !(head <= a < head + HEADER) ==>
      Peek(PutNode(m, head, b.addr + need, b.size - need), a) == Peek(m, a)
  }

  /** That holds in every memory if and only if what is left has room for a header. */
  lemma LeftoverContainedIff(head: nat, b: Block, need: nat)
    requires need < b.size && b.End() + HEADER <= WORD_LIMIT && (head + HEADER <= b.addr || b.End() + HEADER <= head)
    ensures (forall m: Memory :: LeftoverContained(m, head, b, need)) <==> b.size - need >= HEADER
  {
    var addr, size := b.addr + need, b.size - need;
    forall m: Memory ensures size >= HEADER ==> LeftoverContained(m, head, b, need) {
      PutNodeBytes(m, head, addr, size);
    }
    if size < HEADER {
      var m: Memory := map[addr + 15 := 1];
      PutNodeBytes(m, head, addr, size);
      LoadZero(m, head + 8, head + 16);
      ZeroBytes(PutNode(m, head, addr, size), addr + 8, addr + 16, addr + 15);
      assert Peek(m, addr + 15) == 1 && Peek(PutNode(m, head, addr, size), addr + 15) == 0 && !In(b, addr + 15);
      assert !LeftoverContained(m, head, b, need);
    }
  }

  /** Where those writes go: the header of the block, the header of the leftover, the list head. */
  lemma SplitBytes(m: Memory, head: nat, b: Block, need: nat)
    requires HEADER <= need && need + HEADER <= b.size && b.End() <= WORD_LIMIT
    requires head + HEADER <= b.addr || b.End() <= head
    ensures forall a ::
              !(b.addr <= a < b.addr + HEADER) && !(b.addr + need <= a < b.addr + need + HEADER) && !(head <= a < head + HEADER)
              ==> Peek(SplitWrites(m, head, b, need), a) == Peek(m, a)
  {
    PutNodeBytes(m, head, b.addr + need, b.size - need);
    SetWordReads(PutNode(m, head, b.addr + need, b.size - need), b.addr, need);
  }

  lemma SplitPristine(m: Memory, head: nat, lo: nat, hi: nat, free: seq<Block>, init: seq<Block>, b: Block, need: nat)
    requires HeapInv(m, head, lo, hi, free, init + [b]) && HEADER <= need && need + HEADER <= b.size
    requires Pristine(m, free) && AllZero(m, b.addr + HEADER, b.End())
    ensures Pristine(SplitWrites(m, head, b, need), [Block(b.addr + need, b.size - need)] + free)
    ensures AllZero(SplitWrites(m, head, b, need), b.addr + HEADER, b.addr + need)
  {
    SplitFacts(m, head, lo, hi, free, init, b, need);
    assert HeadOk(head, lo, hi) && AllInside(free, lo, hi);
    hide HeapInv, PutNode, SetWord, Peek;
    SplitBytes(m, head, b, need);
    hide SplitWrites;
    var m' := SplitWrites(m, head, b, need);
    var free' := [Block(b.addr + need, b.size - need)] + free;
    forall i | 0 <= i < |free'| ensures AllZero(m', free'[i].addr + HEADER, free'[i].End()) {
      if i > 0 {
        assert free'[i] == free[i - 1];
        assert Apart(b, free[i - 1]) && Inside(free[i - 1], lo, hi);
        assert AllZero(m, free[i - 1].addr + HEADER, free[i - 1].End());
      }
    }
  }

  // ---- the heap in the machine

  /** The frame table, the bytes and the abstract machine agree. */
  ghost predicate HeapState(m: Machine, head: nat, pool: Pool, h: Arena) {
    && Layout(m.frames, pool.first) && |m.frames| == pool.count && UsedPrefix(m.frames, h.used)
    && HeadOk(head, pool.first, pool.Frame(pool.count))
    && ArenaOk(pool, h)
    && HeapInv(m.ram, head, pool.first, pool.Frame(h.used), h.free, h.live)
  }

  lemma UsedGrows(pool: Pool, h: Arena, u: nat)
    requires ArenaOk(pool, h) && h.used <= u <= pool.count
    ensures ArenaOk(pool, h.(used := u))
  {
    hide Spread, Sum, InSome, InPages;
    assert Tiled(pool, h.(used := u));
    assert AllInside(h.free, pool.first, pool.Frame(u)) && AllInside(h.live, pool.first, pool.Frame(u));
  }

  /** Another part of the kernel, or a growth, took frames. */
  lemma StateAfterFrames(m: Machine, m': Machine, head: nat, pool: Pool, h: Arena, u: nat)
    requires HeapState(m, head, pool, h) && h.used <= u <= pool.count
    requires Layout(m'.frames, pool.first) && |m'.frames| == pool.count && UsedPrefix(m'.frames, u)
    requires forall a :: !(pool.Frame(h.used) <= a < pool.Frame(u)) ==> Peek(m'.ram, a) == Peek(m.ram, a)
    ensures HeapState(m', head, pool, h.(used := u))
    ensures Pristine(m.ram, h.free) ==> Pristine(m'.ram, h.free)
  {
    UsedGrows(pool, h, u);
    hide ArenaOk, HeapInv, Peek;
    FramesTaken(m.ram, m'.ram, head, pool.first, pool.Frame(h.used), pool.Frame(u), h.free, h.live);
  }

  /** A block of frames just taken was put in front of the list. */
  lemma StateAfterGrowth(m: Machine, head: nat, pool: Pool, h: Arena, n: nat, taken: nat)
    requires ArenaOk(pool, h) && 0 < n <= taken && h.used + taken <= pool.count
    requires HeapState(m, head, pool, h.(used := h.used + taken))
    ensures var b := Block(pool.Frame(h.used), PAGE * n);
            var ram' := PutNode(m.ram, head, b.addr, b.size);
            && HeapState(m.(ram := ram'), head, pool, AddPages(pool, h, n, taken))
            && (Pristine(m.ram, h.free) && AllZero(m.ram, b.addr, b.End()) ==> Pristine(ram', [b] + h.free))
  {
    AddPagesOk(pool, h, n, taken);
    assert AllInside(h.free, pool.first, pool.Frame(h.used)) && AllInside(h.live, pool.first, pool.Frame(h.used));
    hide ArenaOk, HeapInv, PutNode;
    FreshNode(m.ram, head, pool.first, pool.Frame(h.used), pool.Frame(h.used + taken), h.free, h.live,
              Block(pool.Frame(h.used), PAGE * n));
  }

  lemma StateAfterTake(m: Machine, head: nat, pool: Pool, h: Arena, k: nat)
    requires HeapState(m, head, pool, h) && k < |h.free|
    ensures NextAt(m.ram, Before(head, h.free, k)) == h.free[k].addr
    ensures HeapState(m.(ram := Unlink(m.ram, Before(head, h.free, k))), head, pool, Take(h, k))
  {
    hide ArenaOk, HeapInv, Unlink, NextAt;
    TakeOk(pool, h, k);
    UnlinkOk(m.ram, head, pool.first, pool.Frame(h.used), h.free, h.live, k);
  }

  /** The write that unlinks a node touches no payload. */
  lemma UnlinkZero(m: Memory, head: nat, lo: nat, hi: nat, free: seq<Block>, k: nat, i: nat)
    requires HeadOk(head, lo, hi) && AllInside(free, lo, hi) && AllApart(free) && k < |free| && i < |free|
    requires AllZero(m, free[i].addr + HEADER, free[i].End())
    ensures AllZero(Unlink(m, Before(head, free, k)), free[i].addr + HEADER, free[i].End())
  {
    UnlinkBytes(m, Before(head, free, k));
    hide Unlink, NextAt, SizeAt, Peek;
    assert Inside(free[i], lo, hi);
    if k > 0 && i != k - 1 {
      assert if i < k - 1 then Apart(free[i], free[k - 1]) else Apart(free[k - 1], free[i]);
    }
  }

  lemma StateParts(m: Machine, head: nat, pool: Pool, h: Arena)
    requires HeapState(m, head, pool, h)
    ensures HeadOk(head, pool.first, pool.Frame(h.used)) && AllInside(h.free, pool.first, pool.Frame(h.used))
    ensures AllApart(h.free)
  {
    hide ArenaOk, ListOk, LiveOk;
  }

  lemma TakePristine(m: Machine, head: nat, pool: Pool, h: Arena, k: nat)
    requires HeapState(m, head, pool, h) && k < |h.free| && Pristine(m.ram, h.free)
    ensures var m' := Unlink(m.ram, Before(head, h.free, k));
            Pristine(m', Take(h, k).free) && AllZero(m', h.free[k].addr + HEADER, h.free[k].End())
  {
    hide HeapState, Unlink, AllZero, AllInside, AllApart, HeadOk;
    StateParts(m, head, pool, h);
    var m' := Unlink(m.ram, Before(head, h.free, k));
    forall i: nat | i < |h.free| ensures AllZero(m', h.free[i].addr + HEADER, h.free[i].End()) {
      UnlinkZero(m.ram, head, pool.first, pool.Frame(h.used), h.free, k, i);
    }
  }

  lemma StateAfterSplit(m: Machine, head: nat, pool: Pool, h: Arena, n: nat)
    requires HeapState(m, head, pool, h) && h.live != [] && n + HEADER <= h.live[|h.live| - 1].size
    requires Leftover(h, n) >= HEADER
    ensures HeapState(m.(ram := SplitWrites(m.ram, head, h.live[|h.live| - 1], n + HEADER)), head, pool, Split(h, n))
  {
    hide ArenaOk, HeapInv, SplitWrites;
    SplitOk(pool, h, n);
    var init, b := h.live[..|h.live| - 1], h.live[|h.live| - 1];
    assert h.live == init + [b];
    SplitHeap(m.ram, head, pool.first, pool.Frame(h.used), h.free, init, b, n + HEADER);
  }

  /** Freeing a live block: the header in front of the pointer still holds the size it was handed
      out with, and exactly that extent returns to the list. */
  lemma StateAfterFree(m: Machine, head: nat, pool: Pool, h: Arena, p: nat)
    requires HeapState(m, head, pool, h) && IsLive(h, p)
    ensures p >= HEADER && h.live[LiveIndex(h.live, p)] == Block(p - HEADER, SizeAt(m.ram, p - HEADER))
    ensures HeapState(m.(ram := PutNode(m.ram, head, p - HEADER, SizeAt(m.ram, p - HEADER))), head, pool, GiveBack(h, p))
  {
    var k := LiveIndex(h.live, p);
    assert SizeAt(m.ram, h.live[k].addr) == h.live[k].size;
    hide ArenaOk, HeapInv, PutNode, SizeAt, LiveIndex;
    GiveBackOk(pool, h, p);
    Forget(m.ram, head, pool.first, pool.Frame(h.used), h.free, h.live, k);
    PutNodeOk(m.ram, head, pool.first, pool.Frame(h.used), h.free, Without(h.live, k), h.live[k]);
  }

  // ---- what the rest of the kernel notices

  /** Only frames nobody held have joined the heap. */
  ghost predicate Extends(h: Arena, h': Arena) {
    h.used <= h'.used && forall q :: q in h'.pages ==> q in h.pages || h.used <= q < h'.used
  }

  lemma UntouchedCompose(m: Memory, m1: Memory, m2: Memory, head: nat, pool: Pool, h: Arena, h1: Arena)
    requires Untouched(m, m1, head, pool, h) && Untouched(m1, m2, head, pool, h1)
    requires Extends(h, h1) && h1.used <= pool.count
    ensures Untouched(m, m2, head, pool, h)
  {
    hide Peek;
    forall a | !(head <= a < head + HEADER) && !InPages(pool, h.pages, a) && !(pool.Frame(h.used) <= a < pool.Frame(pool.count))
      ensures Peek(m2, a) == Peek(m, a)
    {
      assert !InPages(pool, h1.pages, a) by {
        var q := (a - pool.first) / PAGE;
        assert PAGE * q <= a - pool.first < PAGE * q + PAGE;
      }
      assert Peek(m1, a) == Peek(m, a);
    }
  }

  /** Every byte of a block lies in the heap's pages. */
  lemma BlockInPages(pool: Pool, h: Arena, s: seq<Block>, k: nat, a: int)
    requires ArenaOk(pool, h) && (s == h.free || s == h.live) && k < |s| && In(s[k], a)
    ensures InPages(pool, h.pages, a)
  {
    hide Spread, Sum, InPages, AllInside;
    assert InSome(s, a);
  }

  /** Writes inside one block, and to the list head, are the heap's own business. */
  lemma BlockWritesUntouched(m: Memory, m': Memory, head: nat, pool: Pool, h: Arena, s: seq<Block>, k: nat)
    requires ArenaOk(pool, h) && (s == h.free || s == h.live) && k < |s|
    requires forall a :: !In(s[k], a) && !(head <= a < head + HEADER) ==> Peek(m', a) == Peek(m, a)
    ensures Untouched(m, m', head, pool, h)
  {
    hide ArenaOk, Peek, InPages, In;
    forall a | !(head <= a < head + HEADER) && !InPages(pool, h.pages, a)
      ensures Peek(m', a) == Peek(m, a)
    {
      if In(s[k], a) {
        BlockInPages(pool, h, s, k, a);
        assert false;
      }
    }
  }

  lemma TakeUntouched(m: Machine, head: nat, pool: Pool, h: Arena, k: nat)
    requires HeapState(m, head, pool, h) && k < |h.free|
    ensures Untouched(m.ram, Unlink(m.ram, Before(head, h.free, k)), head, pool, h)
  {
    StateParts(m, head, pool, h);
    UnlinkBytes(m.ram, Before(head, h.free, k));
    hide HeapInv, Unlink, Peek, NextAt, SizeAt;
    var i := if k == 0 then 0 else k - 1;
    assert Inside(h.free[i], pool.first, pool.Frame(h.used));
    BlockWritesUntouched(m.ram, Unlink(m.ram, Before(head, h.free, k)), head, pool, h, h.free, i);
  }

  lemma SplitUntouched(m: Machine, head: nat, pool: Pool, h: Arena, need: nat)
    requires HeapState(m, head, pool, h) && h.live != []
    requires HEADER <= need && need + HEADER <= h.live[|h.live| - 1].size
    ensures Untouched(m.ram, SplitWrites(m.ram, head, h.live[|h.live| - 1], need), head, pool, h)
  {
    var k := |h.live| - 1;
    assert Inside(h.live[k], pool.first, pool.Frame(h.used)) && HeadOk(head, pool.first, pool.Frame(h.used));
    hide HeapInv, Peek;
    SplitBytes(m.ram, head, h.live[k], need);
    hide SplitWrites;
    BlockWritesUntouched(m.ram, SplitWrites(m.ram, head, h.live[k], need), head, pool, h, h.live, k);
  }

  lemma FreeUntouched(m: Machine, head: nat, pool: Pool, h: Arena, k: nat)
    requires HeapState(m, head, pool, h) && k < |h.live|
    ensures Untouched(m.ram, PutNode(m.ram, head, h.live[k].addr, h.live[k].size), head, pool, h)
  {
    assert Inside(h.live[k], pool.first, pool.Frame(h.used)) && HeadOk(head, pool.first, pool.Frame(h.used));
    hide HeapInv, Peek, SizeAt, NextAt;
    PutNodeBytes(m.ram, head, h.live[k].addr, h.live[k].size);
    hide PutNode;
    BlockWritesUntouched(m.ram, PutNode(m.ram, head, h.live[k].addr, h.live[k].size), head, pool, h, h.live, k);
  }

  lemma StateAfterPayloadWrites(m: Machine, ram: Memory, head: nat, pool: Pool, h: Arena, k: nat)
    requires HeapState(m, head, pool, h) && k < |h.live|
    requires forall a :: !(h.live[k].addr + HEADER <= a < h.live[k].End()) ==> Peek(ram, a) == Peek(m.ram, a)
    ensures HeapState(m.(ram := ram), head, pool, h)
  {
    hide ArenaOk, ListOk, LiveOk, Peek;
    var b := h.live[k];
    var lo, hi := pool.first, pool.Frame(h.used);
    assert Inside(b, lo, hi) && HeadOk(head, lo, hi);
    forall i | 0 <= i < |h.free| ensures Same(m.ram, ram, h.free[i].addr, h.free[i].addr + HEADER) {
      assert ApartFrom(h.free[i], h.live) && Inside(h.free[i], lo, hi);
      assert Apart(h.free[i], b);
    }
    forall i | 0 <= i < |h.live| ensures Same(m.ram, ram, h.live[i].addr, h.live[i].addr + HEADER) {
      assert Inside(h.live[i], lo, hi);
      assert i < k ==> Apart(h.live[i], b);
      assert i > k ==> Apart(b, h.live[i]);
    }
    OtherWrites(m.ram, ram, head, lo, hi, h.free, h.live);
  }

  /** Inserting the leftover leaves the header of the block itself alone. */
  lemma KeptSize(m: Machine, head: nat, pool: Pool, h: Arena, n: nat)
    requires HeapState(m, head, pool, h) && h.live != [] && n + HEADER <= h.live[|h.live| - 1].size
    requires Leftover(h, n) >= HEADER
    ensures var b := h.live[|h.live| - 1];
            SizeAt(PutNode(m.ram, head, b.addr + n + HEADER, Leftover(h, n)), b.addr) == b.size
  {
    var b := h.live[|h.live| - 1];
    assert Inside(b, pool.first, pool.Frame(h.used)) && HeadOk(head, pool.first, pool.Frame(h.used));
    ReadLive(m, head, pool, h, |h.live| - 1);
    hide HeapState, NextAt;
    PutNodeBytes(m.ram, head, b.addr + n + HEADER, Leftover(h, n));
    WordSame(m.ram, PutNode(m.ram, head, b.addr + n + HEADER, Leftover(h, n)), b.addr);
  }

  // ---- live payloads

  /** The payloads of the blocks hold what they held. */
  ghost predicate KeepsPayloads(m: Memory, m': Memory, s: seq<Block>) {
    forall i :: 0 <= i < |s| ==> Same(m, m', s[i].addr + HEADER, s[i].End())
  }

  /** Writes inside one block, and to the list head, reach no payload of blocks apart from it. */
  lemma PayloadsKept(m: Memory, m': Memory, head: nat, lo: nat, hi: nat, b: Block, s: seq<Block>)
    requires HeadOk(head, lo, hi) && AllInside(s, lo, hi) && ApartFrom(b, s)
    requires forall a :: !In(b, a) && !(head <= a < head + HEADER) ==> Peek(m', a) == Peek(m, a)
    ensures KeepsPayloads(m, m', s)
  {
    hide Peek;
    forall i | 0 <= i < |s| ensures Same(m, m', s[i].addr + HEADER, s[i].End()) {
      assert Apart(b, s[i]) && Inside(s[i], lo, hi);
    }
  }

  /** What one or more heap steps keep: zero payloads stay zero, live payloads stay what they are, other
      memory is untouched, and only fresh frames join. */
  ghost predicate Progress(m: Memory, m': Memory, head: nat, pool: Pool, h: Arena, h': Arena) {
    && (Pristine(m, h.free) ==> Pristine(m', h'.free))
    && Untouched(m, m', head, pool, h) && Extends(h, h')
    && KeepsPayloads(m, m', h.live) && h.live <= h'.live
  }

  lemma KeepsCompose(m: Memory, m1: Memory, m2: Memory, s: seq<Block>, t: seq<Block>)
    requires KeepsPayloads(m, m1, s) && KeepsPayloads(m1, m2, t) && s <= t
    ensures KeepsPayloads(m, m2, s)
  {
    hide Peek;
    forall i | 0 <= i < |s| ensures Same(m, m2, s[i].addr + HEADER, s[i].End()) {
      assert s[i] == t[i];
    }
  }

  lemma ProgressCompose(m: Memory, m1: Memory, m2: Memory, head: nat, pool: Pool, h: Arena, h1: Arena, h2: Arena)
    requires Progress(m, m1, head, pool, h, h1) && Progress(m1, m2, head, pool, h1, h2)
    requires h1.used <= pool.count
    ensures Progress(m, m2, head, pool, h, h2)
  {
    hide Untouched, Pristine, KeepsPayloads;
    UntouchedCompose(m, m1, m2, head, pool, h, h1);
    KeepsCompose(m, m1, m2, h.live, h1.live);
  }

  // ---- reading the state

  /** The numeric facts of a heap state. */
  lemma StateNumbers(m: Machine, head: nat, pool: Pool, h: Arena)
    requires HeapState(m, head, pool, h)
    ensures h.used <= pool.count && forall q :: q in h.pages ==> q < h.used
  {
    hide Tiled, Spread, Sum;
  }

  lemma StateFrames(m: Machine, head: nat, pool: Pool, h: Arena)
    requires HeapState(m, head, pool, h)
    ensures Layout(m.frames, pool.first) && |m.frames| == pool.count && UsedPrefix(m.frames, h.used)
    ensures HeadOk(head, pool.first, pool.Frame(pool.count)) && ArenaOk(pool, h)
  {
    hide ArenaOk, HeapInv;
  }

  lemma StateLive(m: Machine, head: nat, pool: Pool, h: Arena)
    requires HeapState(m, head, pool, h)
    ensures AllInside(h.live, pool.first, pool.Frame(h.used)) && Spread(h.free, h.live)
  {
    hide ArenaOk, ListOk, LiveOk;
  }

  /** What the search reads at the i-th position. */
  lemma ReadNode(m: Machine, head: nat, pool: Pool, h: Arena, i: nat)
    requires HeapState(m, head, pool, h) && i <= |h.free|
    ensures NextAt(m.ram, Before(head, h.free, i)) == AddrAt(h.free, i)
    ensures i < |h.free| ==> h.free[i].addr > 0 && SizeAt(m.ram, h.free[i].addr) == h.free[i].size
  {
    hide ArenaOk, NextAt, SizeAt, Spread;
    assert i < |h.free| ==> Inside(h.free[i], pool.first, pool.Frame(h.used));
  }

  lemma ReadLive(m: Machine, head: nat, pool: Pool, h: Arena, k: nat)
    requires HeapState(m, head, pool, h) && k < |h.live|
    ensures SizeAt(m.ram, h.live[k].addr) == h.live[k].size
  {
    hide ArenaOk, SizeAt, ListOk, Spread;
  }

  // ---- the operations as functions on the machine

  /** `PageAlloc`, n times. */
  function ClaimMany(m: Machine, n: nat): Outcome<Machine> {
    if n == 0 then Done(m)
    else
      var m1 :- ClaimMany(m, n - 1);
      var (m2, _) :- Claim(m1);
      Done(m2)
  }

  /** Growth: `taken` frames, the first n of which become one node at the head of the list. */
  ghost function Grow(m: Machine, head: nat, pool: Pool, u: nat, n: nat, taken: nat): Outcome<Machine> {
    var m1 :- ClaimMany(m, taken);
    Done(m1.(ram := PutNode(m1.ram, head, pool.Frame(u), PAGE * n)))
  }

  /** `FindAndRemoveNode` on the bytes, in step with `Find`. */
  ghost function FindBytes(m: Machine, head: nat, pool: Pool, h: Arena, n: nat): (o: Outcome<(Machine, Arena)>)
    ensures o.Done? ==> Find(pool, h, n) == Done(o.value.1)
    decreases pool.count - h.used
  {
    var k := FirstFit(h.free, n + HEADER, 0);
    if k < |h.free| then Done((m.(ram := Unlink(m.ram, Before(head, h.free, k))), Take(h, k)))
    else if n + HEADER >= SMALL_LIMIT then
      if h.used + BlockPages(n) + 1 > pool.count then Panic
      else
        var m1 :- Grow(m, head, pool, h.used, BlockPages(n), BlockPages(n) + 1);
        FindBytes(m1, head, pool, AddPages(pool, h, BlockPages(n), BlockPages(n) + 1), n)
    else if h.used >= pool.count then Panic
    else
      var m1 :- Grow(m, head, pool, h.used, 1, 1);
      if h.free == [] then Done((m1.(ram := Unlink(m1.ram, head)), Take(AddPages(pool, h, 1, 1), 0)))
      else Fault
  }

  /** `malloc` on the bytes: the machine, the blocks and the pointer. */
  ghost function MallocBytes(m: Machine, head: nat, pool: Pool, h: Arena, n: nat): (o: Outcome<(Machine, Arena, nat)>)
    ensures o.Done? ==> Allot(pool, h, n) == Done((o.value.1, o.value.2))
  {
    var (m1, h1) :- FindBytes(m, head, pool, h, n);
    var b := h1.live[|h1.live| - 1];
    Done((if Leftover(h1, n) == 0 then m1 else m1.(ram := SplitWrites(m1.ram, head, b, n + HEADER)),
          Split(h1, n), b.addr + HEADER))
  }

  /** `free` on the bytes: the node goes back with the size read in front of the pointer. */
  function FreeBytes(m: Machine, head: nat, p: nat): Machine
    requires p >= HEADER
  {
    m.(ram := PutNode(m.ram, head, p - HEADER, SizeAt(m.ram, p - HEADER)))
  }

  // ---- growth on the machine

  lemma {:induction false} ClaimManyOk(m: Machine, pool: Pool, u: nat, n: nat)
    requires Layout(m.frames, pool.first) && |m.frames| == pool.count && UsedPrefix(m.frames, u)
    ensures ClaimMany(m, n) == Panic <==> u + n > pool.count
    ensures !ClaimMany(m, n).Fault?
    ensures ClaimMany(m, n).Done? ==>
              var m' := ClaimMany(m, n).value;
              && Layout(m'.frames, pool.first) && |m'.frames| == pool.count && UsedPrefix(m'.frames, u + n)
              && AllZero(m'.ram, pool.Frame(u), pool.Frame(u + n))
              && forall a :: !(pool.Frame(u) <= a < pool.Frame(u + n)) ==> Peek(m'.ram, a) == Peek(m.ram, a)
    decreases n
  {
    hide Claim, Held, Spare, Peek, FirstFree;
    if n > 0 {
      ClaimManyOk(m, pool, u, n - 1);
      if ClaimMany(m, n - 1).Done? {
        var m1 := ClaimMany(m, n - 1).value;
        ClaimExtendsPrefix(m1, pool.first, u + n - 1);
        ClaimSpec(m1, pool.first);
      }
    }
  }

  lemma ClaimManyStep(m: Machine, n: nat)
    ensures ClaimMany(m, n + 1) ==
              match ClaimMany(m, n)
              case Done(m1) =>
                (match Claim(m1)
                 case Done((m2, _)) => Done(m2)
                 case Panic => Panic
                 case Fault => Fault)
              case Panic => Panic
              case Fault => Fault
    ensures ClaimMany(m, 0) == Done(m) && !Claim(m).Fault?
    ensures ClaimMany(m, n).Done? ==> !Claim(ClaimMany(m, n).value).Fault?
  {
    hide FirstFree;
  }

  /** The next call of `PageAlloc` gives the next frame in order, which is never null, or panics. */
  lemma NextFrame(m: Machine, pool: Pool, u: nat, n: nat)
    requires Layout(m.frames, pool.first) && |m.frames| == pool.count && UsedPrefix(m.frames, u)
    ensures ClaimMany(m, 0) == Done(m)
    ensures ClaimMany(m, n).Done? ==>
              match Claim(ClaimMany(m, n).value)
              case Done((m', a)) => ClaimMany(m, n + 1) == Done(m') && a == pool.Frame(u + n) && a > 0
              case Panic => ClaimMany(m, n + 1) == Panic
              case Fault => false
  {
    ClaimManyOk(m, pool, u, n);
    ClaimManyStep(m, n);
    hide Claim, ClaimMany, Held, Spare, Peek, FirstFree;
    if ClaimMany(m, n).Done? {
      ClaimExtendsPrefix(ClaimMany(m, n).value, pool.first, u + n);
      ClaimSpec(ClaimMany(m, n).value, pool.first);
    }
  }

  lemma {:induction false} ClaimManyPanics(m: Machine, n: nat, total: nat)
    requires n <= total && ClaimMany(m, n) == Panic
    ensures ClaimMany(m, total) == Panic
    decreases total
  {
    hide Claim;
    if n < total {
      ClaimManyPanics(m, n, total - 1);
    }
  }

  lemma GrowthUntouched(m: Memory, m1: Memory, head: nat, pool: Pool, h: Arena, n: nat, taken: nat)
    requires 0 < n <= taken && h.used + taken <= pool.count && HeadOk(head, pool.first, pool.Frame(pool.count))
    requires forall a :: !(pool.Frame(h.used) <= a < pool.Frame(h.used + taken)) ==> Peek(m1, a) == Peek(m, a)
    ensures Untouched(m, PutNode(m1, head, pool.Frame(h.used), PAGE * n), head, pool, h)
    ensures AllInside(h.live, pool.first, pool.Frame(h.used)) ==>
              KeepsPayloads(m, PutNode(m1, head, pool.Frame(h.used), PAGE * n), h.live)
  {
    PutNodeBytes(m1, head, pool.Frame(h.used), PAGE * n);
    hide PutNode, Peek, NextAt, SizeAt;
    if AllInside(h.live, pool.first, pool.Frame(h.used)) {
      FreshApart(pool, h, h.live, taken);
      PayloadsKept(m, PutNode(m1, head, pool.Frame(h.used), PAGE * n), head, pool.first, pool.Frame(pool.count),
                   Block(pool.Frame(h.used), PAGE * taken), h.live);
    }
  }

  /** Growth panics exactly when the frames run out; otherwise the new block joins and everything else is kept. */
  lemma GrowOk(m: Machine, head: nat, pool: Pool, h: Arena, n: nat, taken: nat)
    requires HeapState(m, head, pool, h) && 0 < n <= taken
    ensures h.used + taken > pool.count ==> Grow(m, head, pool, h.used, n, taken) == Panic
    ensures h.used + taken <= pool.count ==>
              && Grow(m, head, pool, h.used, n, taken).Done?
              && var m' := Grow(m, head, pool, h.used, n, taken).value;
                 var h' := AddPages(pool, h, n, taken);
                 HeapState(m', head, pool, h') && Progress(m.ram, m'.ram, head, pool, h, h')
  {
    StateFrames(m, head, pool, h);
    ClaimManyOk(m, pool, h.used, taken);
    hide ArenaOk, HeapInv, Peek, ClaimMany, PutNode, Layout, UsedPrefix;
    if h.used + taken <= pool.count {
      var m1 := ClaimMany(m, taken).value;
      StateLive(m, head, pool, h);
      StateAfterFrames(m, m1, head, pool, h, h.used + taken);
      StateAfterGrowth(m1, head, pool, h, n, taken);
      GrowthUntouched(m.ram, m1.ram, head, pool, h, n, taken);
      hide HeapState, Untouched, KeepsPayloads, AllInside;
      assert Extends(h, AddPages(pool, h, n, taken));
    }
  }

  /** A frame taken for something else: the next one in order and zero; the heap and every other byte are kept. */
  lemma FrameTaken(m: Machine, head: nat, pool: Pool, h: Arena)
    requires HeapState(m, head, pool, h) && Claim(m).Done?
    ensures var (m', a) := Claim(m).value;
            var h' := h.(used := h.used + 1);
            && h.used < pool.count && a == pool.Frame(h.used) && AllZero(m'.ram, a, a + PAGE)
            && (forall b :: !(a <= b < a + PAGE) ==> Peek(m'.ram, b) == Peek(m.ram, b))
            && HeapState(m', head, pool, h') && Progress(m.ram, m'.ram, head, pool, h, h')
  {
    hide HeapState, Claim, Held, Spare, FirstFree, Peek, Pristine, AllZero, Layout, UsedPrefix, ArenaOk;
    StateFrames(m, head, pool, h);
    StateNumbers(m, head, pool, h);
    StateLive(m, head, pool, h);
    ClaimExtendsPrefix(m, pool.first, h.used);
    ClaimSpec(m, pool.first);
    var (m', a) := Claim(m).value;
    StateAfterFrames(m, m', head, pool, h, h.used + 1);
    FreshApart(pool, h, h.live, 1);
    PayloadsKept(m.ram, m'.ram, head, pool.first, pool.Frame(pool.count), Block(a, PAGE), h.live);
  }

  // ---- the search on the machine

  /** Taking the k-th free block keeps everything else. */
  lemma TakeProgress(m: Machine, head: nat, pool: Pool, h: Arena, k: nat)
    requires HeapState(m, head, pool, h) && k < |h.free|
    ensures var ram' := Unlink(m.ram, Before(head, h.free, k));
            && HeapState(m.(ram := ram'), head, pool, Take(h, k))
            && Progress(m.ram, ram', head, pool, h, Take(h, k))
            && (Pristine(m.ram, h.free) ==> AllZero(ram', h.free[k].addr + HEADER, h.free[k].End()))
  {
    StateAfterTake(m, head, pool, h, k);
    TakeUntouched(m, head, pool, h, k);
    StateNumbers(m, head, pool, h);
    TakeKeepsPayloads(m, head, pool, h, k);
    hide HeapState, Unlink, Untouched, Pristine, AllZero, KeepsPayloads, NextAt;
    if Pristine(m.ram, h.free) {
      TakePristine(m, head, pool, h, k);
    }
  }

  lemma TakeKeepsPayloads(m: Machine, head: nat, pool: Pool, h: Arena, k: nat)
    requires HeapState(m, head, pool, h) && k < |h.free|
    ensures KeepsPayloads(m.ram, Unlink(m.ram, Before(head, h.free, k)), h.live)
  {
    StateParts(m, head, pool, h);
    StateLive(m, head, pool, h);
    UnlinkBytes(m.ram, Before(head, h.free, k));
    hide HeapState, Unlink, Peek, NextAt, SizeAt;
    var i := if k == 0 then 0 else k - 1;
    assert ApartFrom(h.free[i], h.live) && Inside(h.free[i], pool.first, pool.Frame(h.used));
    PayloadsKept(m.ram, Unlink(m.ram, Before(head, h.free, k)), head, pool.first, pool.Frame(h.used), h.free[i], h.live);
  }

  /** A found block that carries all that is promised about the search. */
  ghost predicate Found(m: Machine, head: nat, pool: Pool, h: Arena, m': Machine, h': Arena) {
    && HeapState(m', head, pool, h') && Progress(m.ram, m'.ram, head, pool, h, h')
    && |h'.live| == |h.live| + 1
    && (Pristine(m.ram, h.free) ==>
          var b := h'.live[|h.live|]; AllZero(m'.ram, b.addr + HEADER, b.End()))
  }

  lemma FoundByTaking(m: Machine, head: nat, pool: Pool, h: Arena, k: nat)
    requires HeapState(m, head, pool, h) && k < |h.free|
    ensures Found(m, head, pool, h, m.(ram := Unlink(m.ram, Before(head, h.free, k))), Take(h, k))
  {
    TakeProgress(m, head, pool, h, k);
    hide HeapState, Progress, Unlink, AllZero, Pristine;
  }

  lemma FoundAfterGrowth(m: Machine, head: nat, pool: Pool, h: Arena, m1: Machine, h1: Arena, m2: Machine, h2: Arena)
    requires HeapState(m1, head, pool, h1) && Progress(m.ram, m1.ram, head, pool, h, h1) && h1.live == h.live
    requires Found(m1, head, pool, h1, m2, h2)
    ensures Found(m, head, pool, h, m2, h2)
  {
    StateNumbers(m1, head, pool, h1);
    hide HeapState, Pristine, Untouched, KeepsPayloads, AllZero;
    ProgressCompose(m.ram, m1.ram, m2.ram, head, pool, h, h1, h2);
  }

  /** The search on the bytes ends as the abstract one does, and what it finds is as promised. */
  lemma {:induction false} FindBytesOk(m: Machine, head: nat, pool: Pool, h: Arena, n: nat)
    requires HeapState(m, head, pool, h) && n <= MAX_REQUEST
    ensures match Find(pool, h, n)
            case Panic => FindBytes(m, head, pool, h, n) == Panic
            case Fault => FindBytes(m, head, pool, h, n) == Fault
            case Done(h') =>
              var o := FindBytes(m, head, pool, h, n);
              o.Done? && o.value.1 == h' && Found(m, head, pool, h, o.value.0, h')
    decreases pool.count - h.used
  {
    hide HeapState, Progress, Found, Unlink, Grow, Take, FirstFit;
    var k := FirstFit(h.free, n + HEADER, 0);
    if k < |h.free| {
      FoundByTaking(m, head, pool, h, k);
    } else if n + HEADER >= SMALL_LIMIT {
      FindBytesLarge(m, head, pool, h, n);
    } else {
      GrowOk(m, head, pool, h, 1, 1);
      if h.used < pool.count && h.free == [] {
        var m1, h1 := Grow(m, head, pool, h.used, 1, 1).value, AddPages(pool, h, 1, 1);
        FoundByTaking(m1, head, pool, h1, 0);
        FoundAfterGrowth(m, head, pool, h, m1, h1, m1.(ram := Unlink(m1.ram, head)), Take(h1, 0));
      }
    }
  }

  lemma {:induction false} FindBytesLarge(m: Machine, head: nat, pool: Pool, h: Arena, n: nat)
    requires HeapState(m, head, pool, h) && SMALL_LIMIT <= n + HEADER && n <= MAX_REQUEST && FirstFit(h.free, n + HEADER, 0) == |h.free|
    ensures match Find(pool, h, n)
            case Panic => FindBytes(m, head, pool, h, n) == Panic
            case Fault => FindBytes(m, head, pool, h, n) == Fault
            case Done(h') =>
              var o := FindBytes(m, head, pool, h, n);
              o.Done? && o.value.1 == h' && Found(m, head, pool, h, o.value.0, h')
    decreases pool.count - h.used, 0
  {
    hide HeapState, Progress, Found, Grow, FirstFit, Take;
    var pages := BlockPages(n);
    if h.used + pages + 1 <= pool.count {
      GrowOk(m, head, pool, h, pages, pages + 1);
      var m1, h1 := Grow(m, head, pool, h.used, pages, pages + 1).value, AddPages(pool, h, pages, pages + 1);
      FindBytesOk(m1, head, pool, h1, n);
      if FindBytes(m1, head, pool, h1, n).Done? {
        var (m2, h2) := FindBytes(m1, head, pool, h1, n).value;
        FoundAfterGrowth(m, head, pool, h, m1, h1, m2, h2);
      }
    }
  }

  // ---- malloc on the machine

  /** Splitting keeps zero payloads zero, other live payloads what they are, and touches nothing but the block
      and the list head. */
  lemma SplitKeeps(m: Machine, head: nat, pool: Pool, h: Arena, n: nat)
    requires HeapState(m, head, pool, h) && h.live != [] && n + HEADER <= h.live[|h.live| - 1].size
    requires Leftover(h, n) >= HEADER
    ensures var b := h.live[|h.live| - 1];
            var m' := SplitWrites(m.ram, head, b, n + HEADER);
            && Untouched(m.ram, m', head, pool, h) && Extends(h, Split(h, n))
            && KeepsPayloads(m.ram, m', h.live[..|h.live| - 1])
            && (Pristine(m.ram, h.free) && AllZero(m.ram, b.addr + HEADER, b.End()) ==>
                  Pristine(m', Split(h, n).free) && AllZero(m', b.addr + HEADER, b.addr + n + HEADER))
  {
    hide ArenaOk, HeapInv, SplitWrites, Pristine, AllZero, Untouched, KeepsPayloads;
    var init, b := h.live[..|h.live| - 1], h.live[|h.live| - 1];
    assert h.live == init + [b];
    SplitUntouched(m, head, pool, h, n + HEADER);
    SplitKeepsPayloads(m, head, pool, h, n + HEADER);
    if Pristine(m.ram, h.free) && AllZero(m.ram, b.addr + HEADER, b.End()) {
      SplitPristine(m.ram, head, pool.first, pool.Frame(h.used), h.free, init, b, n + HEADER);
    }
  }

  lemma SplitKeepsPayloads(m: Machine, head: nat, pool: Pool, h: Arena, need: nat)
    requires HeapState(m, head, pool, h) && h.live != []
    requires HEADER <= need && need + HEADER <= h.live[|h.live| - 1].size
    ensures KeepsPayloads(m.ram, SplitWrites(m.ram, head, h.live[|h.live| - 1], need), h.live[..|h.live| - 1])
  {
    var last := |h.live| - 1;
    var init, b := h.live[..last], h.live[last];
    StateParts(m, head, pool, h);
    StateLive(m, head, pool, h);
    hide HeapState, Peek;
    assert Inside(b, pool.first, pool.Frame(h.used));
    SplitBytes(m.ram, head, b, need);
    hide SplitWrites;
    forall i | 0 <= i < |init| ensures Apart(b, init[i]) && Inside(init[i], pool.first, pool.Frame(h.used)) {
      assert init[i] == h.live[i] && Apart(h.live[i], h.live[last]);
    }
    PayloadsKept(m.ram, SplitWrites(m.ram, head, b, need), head, pool.first, pool.Frame(h.used), b, init);
  }

  lemma SplitProgress(m0: Memory, h0: Arena, m: Machine, head: nat, pool: Pool, h: Arena, n: nat)
    requires HeapState(m, head, pool, h) && |h.live| == |h0.live| + 1 && n + HEADER <= h.live[|h.live| - 1].size
    requires Leftover(h, n) >= HEADER && Progress(m0, m.ram, head, pool, h0, h)
    requires var b := h.live[|h.live| - 1]; Pristine(m0, h0.free) ==> AllZero(m.ram, b.addr + HEADER, b.End())
    ensures var b := h.live[|h.live| - 1];
            var m' := SplitWrites(m.ram, head, b, n + HEADER);
            && Progress(m0, m', head, pool, h0, Split(h, n))
            && (Pristine(m0, h0.free) ==> AllZero(m', b.addr + HEADER, b.addr + n + HEADER))
  {
    hide HeapState, SplitWrites, Pristine, AllZero, Untouched, KeepsPayloads;
    StateNumbers(m, head, pool, h);
    SplitKeeps(m, head, pool, h, n);
    var m' := SplitWrites(m.ram, head, h.live[|h.live| - 1], n + HEADER);
    UntouchedCompose(m0, m.ram, m', head, pool, h0, h);
    assert h.live[..|h.live| - 1] == h0.live;
    KeepsCompose(m0, m.ram, m', h0.live, h0.live);
  }

  /** `malloc` on the bytes ends as the abstract request does. Unless the kernel panics or faults, the result is
      the payload of a live block of exactly n + 16 bytes, every live payload keeps its bytes, and the new one is
      zero when the free payloads were. */
  lemma MallocBytesOk(m: Machine, head: nat, pool: Pool, h: Arena, n: nat)
    requires HeapState(m, head, pool, h) && n <= MAX_REQUEST && CleanSplit(pool, h, n)
    ensures match Allot(pool, h, n)
            case Panic => MallocBytes(m, head, pool, h, n) == Panic
            case Fault => MallocBytes(m, head, pool, h, n) == Fault
            case Done((h', p)) =>
              && MallocBytes(m, head, pool, h, n).Done?
              && var (m', h1, p1) := MallocBytes(m, head, pool, h, n).value;
                 && h1 == h' && p1 == p && p >= HEADER
                 && HeapState(m', head, pool, h') && Progress(m.ram, m'.ram, head, pool, h, h')
                 && |h'.live| == |h.live| + 1 && h'.live[|h.live|] == Block(p - HEADER, n + HEADER)
                 && (Pristine(m.ram, h.free) ==> AllZero(m'.ram, p, p + n))
  {
    hide HeapState, Progress, Find, FindBytes, Pristine, AllZero, SplitWrites;
    FindBytesOk(m, head, pool, h, n);
    if Find(pool, h, n).Done? {
      var (m1, h1) := FindBytes(m, head, pool, h, n).value;
      if Leftover(h1, n) != 0 {
        StateAfterSplit(m1, head, pool, h1, n);
        SplitProgress(m.ram, h, m1, head, pool, h1, n);
      }
      KeepsPrefix(pool, h, h1, n);
    }
  }

  lemma KeepsPrefix(pool: Pool, h: Arena, h1: Arena, n: nat)
    requires Find(pool, h, n) == Done(h1)
    ensures Split(h1, n).live[|h.live|] == Block(h1.live[|h.live|].addr, n + HEADER)
    ensures |Split(h1, n).live| == |h.live| + 1
  {
    hide Find;
  }

  // ---- free and stores on the machine

  /** Inserting what is freed reaches no payload, not even that of the block itself. */
  lemma FreeKeepsPayloads(m: Machine, head: nat, pool: Pool, h: Arena, k: nat)
    requires HeapState(m, head, pool, h) && k < |h.live|
    ensures KeepsPayloads(m.ram, PutNode(m.ram, head, h.live[k].addr, h.live[k].size), h.live)
  {
    StateParts(m, head, pool, h);
    StateLive(m, head, pool, h);
    hide HeapState, Peek, SizeAt, NextAt;
    assert Inside(h.live[k], pool.first, pool.Frame(h.used));
    PutNodeBytes(m.ram, head, h.live[k].addr, h.live[k].size);
    hide PutNode;
    assert AllApart(h.live);
    HeaderWritesKeep(m.ram, PutNode(m.ram, head, h.live[k].addr, h.live[k].size), head, pool.first, pool.Frame(h.used), h.live, k);
  }

  lemma HeaderWritesKeep(m: Memory, m': Memory, head: nat, lo: nat, hi: nat, s: seq<Block>, k: nat)
    requires HeadOk(head, lo, hi) && AllInside(s, lo, hi) && AllApart(s) && k < |s|
    requires forall a :: !(s[k].addr <= a < s[k].addr + HEADER) && !(head <= a < head + HEADER) ==> Peek(m', a) == Peek(m, a)
    ensures KeepsPayloads(m, m', s)
  {
    hide Peek;
    forall i | 0 <= i < |s| ensures Same(m, m', s[i].addr + HEADER, s[i].End()) {
      assert Inside(s[i], lo, hi) && Inside(s[k], lo, hi);
      assert i < k ==> Apart(s[i], s[k]);
      assert i > k ==> Apart(s[k], s[i]);
    }
  }

  /** `free` on the bytes gives back exactly the extent handed out and changes no live payload. */
  lemma FreeBytesOk(m: Machine, head: nat, pool: Pool, h: Arena, p: nat)
    requires HeapState(m, head, pool, h) && IsLive(h, p)
    ensures p >= HEADER && h.live[LiveIndex(h.live, p)] == Block(p - HEADER, SizeAt(m.ram, p - HEADER))
    ensures HeapState(FreeBytes(m, head, p), head, pool, GiveBack(h, p))
    ensures Untouched(m.ram, FreeBytes(m, head, p).ram, head, pool, h) && Extends(h, GiveBack(h, p))
    ensures KeepsPayloads(m.ram, FreeBytes(m, head, p).ram, h.live)
    ensures GiveBack(h, p).free == [h.live[LiveIndex(h.live, p)]] + h.free
  {
    StateNumbers(m, head, pool, h);
    assert Extends(h, GiveBack(h, p));
    var k := LiveIndex(h.live, p);
    hide HeapState, SizeAt, LiveIndex, Untouched, KeepsPayloads, PutNode, GiveBack, Extends;
    StateAfterFree(m, head, pool, h, p);
    FreeUntouched(m, head, pool, h, k);
    FreeKeepsPayloads(m, head, pool, h, k);
  }

  /** The address lies in the payload of a live block. */
  ghost predicate InPayload(h: Arena, a: int) {
    exists k :: 0 <= k < |h.live| && h.live[k].addr + HEADER <= a < h.live[k].End()
  }

  /** Writes inside the payload of one live block keep the heap, and all memory outside it. */
  lemma PayloadWrites(m: Machine, ram: Memory, head: nat, pool: Pool, h: Arena, k: nat)
    requires HeapState(m, head, pool, h) && k < |h.live|
    requires forall a :: !(h.live[k].addr + HEADER <= a < h.live[k].End()) ==> Peek(ram, a) == Peek(m.ram, a)
    ensures HeapState(m.(ram := ram), head, pool, h)
    ensures Untouched(m.ram, ram, head, pool, h)
    ensures Pristine(m.ram, h.free) ==> Pristine(ram, h.free)
    ensures KeepsPayloads(m.ram, ram, Without(h.live, k))
  {
    StateAfterPayloadWrites(m, ram, head, pool, h, k);
    StateLive(m, head, pool, h);
    StateParts(m, head, pool, h);
    StateFrames(m, head, pool, h);
    hide HeapState, ArenaOk, Peek;
    BlockWritesUntouched(m.ram, ram, head, pool, h, h.live, k);
    PayloadWritesApart(m.ram, ram, h.free, h.live, k);
  }

  lemma PayloadWritesApart(m: Memory, ram: Memory, free: seq<Block>, live: seq<Block>, k: nat)
    requires Spread(free, live) && k < |live|
    requires forall a :: !(live[k].addr + HEADER <= a < live[k].End()) ==> Peek(ram, a) == Peek(m, a)
    ensures Pristine(m, free) ==> Pristine(ram, free)
    ensures KeepsPayloads(m, ram, Without(live, k))
  {
    hide Peek;
    forall i | 0 <= i < |free| ensures Same(m, ram, free[i].addr + HEADER, free[i].End()) {
      assert ApartFrom(free[i], live);
      assert Apart(free[i], live[k]);
    }
    if Pristine(m, free) {
      forall i | 0 <= i < |free| ensures AllZero(ram, free[i].addr + HEADER, free[i].End()) {
        assert AllZero(m, free[i].addr + HEADER, free[i].End()) && Same(m, ram, free[i].addr + HEADER, free[i].End());
      }
    }
    var rest := Without(live, k);
    forall i | 0 <= i < |rest| ensures Same(m, ram, rest[i].addr + HEADER, rest[i].End()) {
      assert i < k ==> Apart(live[i], live[k]) && rest[i] == live[i];
      assert i >= k ==> Apart(live[k], live[i + 1]) && rest[i] == live[i + 1];
    }
  }
}
