/** The heap as an abstract machine over blocks: what `malloc`, `free` and the growth of
    src/mm/heapalloc/heap.c do to the lists of free and live blocks. */
module Arena {
  import opened Outcomes
  import opened Lists
  import opened Frames
  import opened HeapList
  import Arith

  /** The frames of the allocator: `count` of them from address `first`. */
  datatype Pool = Pool(first: nat, count: nat) {
    function Frame(i: nat): nat {
      first + PAGE * i
    }
  }

  /** `used` frames are taken, by the heap or by others; `pages` are those the heap's blocks lie in. */
  datatype Arena = Arena(free: seq<Block>, live: seq<Block>, used: nat, pages: set<nat>)

  const SMALL_LIMIT: int := 4096

  const INT_LIMIT: int := 0x8000_0000

  /** The largest request for which the `int` product in `CombineBlocks` is exact. */
  const MAX_REQUEST: int := INT_LIMIT - PAGE

  /** The index of the first block from i on that holds `need` bytes, or the length. */
  function FirstFit(free: seq<Block>, need: nat, i: nat): (k: nat)
    requires i <= |free|
    ensures i <= k <= |free|
    ensures forall j :: i <= j < k ==> free[j].size < need
    ensures k < |free| ==> need <= free[k].size
    decreases |free| - i
  {
    if i == |free| || need <= free[i].size then i else FirstFit(free, need, i + 1)
  }

  /** Pages that `CombineBlocks` puts into one block. It takes one page more than that. */
  function BlockPages(n: nat): nat {
    (n + PAGE - 1) / PAGE
  }

  ghost function PageRange(u: nat, n: nat): (r: set<nat>)
    ensures forall q :: q in r <==> u <= q < u + n
  {
    if n == 0 then {} else PageRange(u, n - 1) + {u + n - 1}
  }

  /** Puts `n` pages, from the first frame not taken, in front of the free list. */
  ghost function AddPages(pool: Pool, h: Arena, n: nat, taken: nat): Arena {
    h.(free := [Block(pool.Frame(h.used), PAGE * n)] + h.free, used := h.used + taken, pages := h.pages + PageRange(h.used, n))
  }

  ghost function Take(h: Arena, k: nat): Arena
    requires k < |h.free|
  {
    h.(free := Without(h.free, k), live := h.live + [h.free[k]])
  }

  /** `FindAndRemoveNode`: the block found is the last live one. A small request that finds a
      non-empty list without a fit inserts the new page at the head but goes on at the tail, where
      it follows the null pointer. */
  ghost function Find(pool: Pool, h: Arena, n: nat): (o: Outcome<Arena>)
    ensures o.Done? ==> |o.value.live| == |h.live| + 1 && n + HEADER <= o.value.live[|h.live|].size
    ensures o.Done? ==> o.value.live[..|h.live|] == h.live
    decreases pool.count - h.used
  {
    var k := FirstFit(h.free, n + HEADER, 0);
    if k < |h.free| then Done(Take(h, k))
    else if n + HEADER >= SMALL_LIMIT then
      if h.used + BlockPages(n) + 1 > pool.count then Panic
      else Find(pool, AddPages(pool, h, BlockPages(n), BlockPages(n) + 1), n)
    else if h.used >= pool.count then Panic
    else if h.free == [] then Done(Take(AddPages(pool, h, 1, 1), 0))
    else Fault
  }

  /** The bytes of the found block that the request does not need. */
  ghost function Leftover(h: Arena, n: nat): nat
    requires h.live != [] && n + HEADER <= h.live[|h.live| - 1].size
  {
    h.live[|h.live| - 1].size - (n + HEADER)
  }

  /** `_alloc` after the search: what is left over becomes a free block of its own. */
  ghost function Split(h: Arena, n: nat): Arena
    requires h.live != [] && n + HEADER <= h.live[|h.live| - 1].size
  {
    var last := |h.live| - 1;
    var b := h.live[last];
    if Leftover(h, n) == 0 then h
    else
      h.(free := [Block(b.addr + n + HEADER, Leftover(h, n))] + h.free,
         live := h.live[..last] + [Block(b.addr, n + HEADER)])
  }

  ghost function Allot(pool: Pool, h: Arena, n: nat): Outcome<(Arena, nat)> {
    var h1 :- Find(pool, h, n);
    Done((Split(h1, n), h1.live[|h1.live| - 1].addr + HEADER))
  }

  /** The header fits into what is left over. */
  ghost predicate CleanSplit(pool: Pool, h: Arena, n: nat) {
    Find(pool, h, n).Done? ==> Leftover(Find(pool, h, n).value, n) == 0 || Leftover(Find(pool, h, n).value, n) >= HEADER
  }

  ghost predicate IsLive(h: Arena, p: nat) {
    exists k :: 0 <= k < |h.live| && h.live[k].addr + HEADER == p
  }

  ghost function LiveIndex(live: seq<Block>, p: nat): (k: nat)
    requires exists k :: 0 <= k < |live| && live[k].addr + HEADER == p
    ensures k < |live| && live[k].addr + HEADER == p
  {
    if live[0].addr + HEADER == p then 0
    else
      assert exists k :: 0 <= k < |live[1..]| && live[1..][k].addr + HEADER == p by {
        var k :| 0 <= k < |live| && live[k].addr + HEADER == p;
        assert live[1..][k - 1] == live[k];
      }
      1 + LiveIndex(live[1..], p)
  }

  ghost function GiveBack(h: Arena, p: nat): Arena
    requires IsLive(h, p)
  {
    var k := LiveIndex(h.live, p);
    h.(free := [h.live[k]] + h.free, live := Without(h.live, k))
  }

  // ---- the invariant: disjoint blocks that tile the heap's pages

  ghost predicate In(b: Block, a: int) {
    b.addr <= a < b.End()
  }

  ghost predicate InSome(s: seq<Block>, a: int) {
    exists i :: 0 <= i < |s| && In(s[i], a)
  }

  ghost predicate InPages(pool: Pool, pages: set<nat>, a: int) {
    a >= pool.first && (a - pool.first) / PAGE in pages
  }

  /** Free and live blocks together cover exactly the pages put into the heap. */
  ghost predicate Tiled(pool: Pool, h: Arena) {
    forall a: int :: InSome(h.free, a) || InSome(h.live, a) <==> InPages(pool, h.pages, a)
  }

  ghost function Sum(s: seq<Block>): nat {
    if s == [] then 0 else Sum(s[..|s| - 1]) + s[|s| - 1].size
  }

  ghost predicate ArenaOk(pool: Pool, h: Arena) {
    && h.used <= pool.count && 0 < pool.first
    && (forall q :: q in h.pages ==> q < h.used)
    && AllInside(h.free, pool.first, pool.Frame(h.used))
    && AllInside(h.live, pool.first, pool.Frame(h.used))
    && Spread(h.free, h.live)
    && Tiled(pool, h)
    && Sum(h.free) + Sum(h.live) == PAGE * |h.pages|
  }

  // ---- sums

  lemma {:induction false} SumConcat(s: seq<Block>, t: seq<Block>)
    ensures Sum(s + t) == Sum(s) + Sum(t)
    decreases |t|
  {
    if t == [] {
      assert s + t == s;
    } else {
      assert (s + t)[..|s + t| - 1] == s + t[..|t| - 1];
      SumConcat(s, t[..|t| - 1]);
    }
  }

  lemma SumOne(b: Block)
    ensures Sum([b]) == b.size
  {
    assert [b][..0] == [];
  }

  lemma SumWithout(s: seq<Block>, k: nat)
    requires k < |s|
    ensures Sum(Without(s, k)) == Sum(s) - s[k].size
  {
    hide Sum;
    var a, c := s[..k], s[k + 1..];
    assert s == a + [s[k]] + c;
    SumConcat(a, [s[k]]);
    SumConcat(a + [s[k]], c);
    SumConcat(a, c);
    SumOne(s[k]);
  }

  // ---- where a byte lies

  lemma InSomeConcat(s: seq<Block>, t: seq<Block>, a: int)
    ensures InSome(s + t, a) <==> InSome(s, a) || InSome(t, a)
  {
    if InSome(s, a) {
      var i :| 0 <= i < |s| && In(s[i], a);
      assert In((s + t)[i], a);
    }
    if InSome(t, a) {
      var i :| 0 <= i < |t| && In(t[i], a);
      assert In((s + t)[|s| + i], a);
    }
  }

  lemma InSomeOne(b: Block, a: int)
    ensures InSome([b], a) <==> In(b, a)
  {
    if In(b, a) {
      assert In([b][0], a);
    }
  }

  lemma InSomeWithout(s: seq<Block>, k: nat, a: int)
    requires k < |s|
    ensures InSome(s, a) <==> InSome(Without(s, k), a) || In(s[k], a)
  {
    var l, r := s[..k], s[k + 1..];
    assert s == l + [s[k]] + r;
    InSomeConcat(l, [s[k]], a);
    InSomeConcat(l + [s[k]], r, a);
    InSomeConcat(l, r, a);
    InSomeOne(s[k], a);
  }

  // ---- steps

  lemma TakeOk(pool: Pool, h: Arena, k: nat)
    requires ArenaOk(pool, h) && k < |h.free|
    ensures ArenaOk(pool, Take(h, k))
  {
    hide In, InPages, Inside, Apart, InSome;
    var h' := Take(h, k);
    assert Tiled(pool, h') by {
      forall a: int ensures InSome(h'.free, a) || InSome(h'.live, a) <==> InPages(pool, h.pages, a) {
        InSomeWithout(h.free, k, a);
        InSomeConcat(h.live, [h.free[k]], a);
        InSomeOne(h.free[k], a);
      }
    }
    assert Sum(h'.free) + Sum(h'.live) == PAGE * |h.pages| by {
      SumWithout(h.free, k);
      SumConcat(h.live, [h.free[k]]);
      SumOne(h.free[k]);
    }
    hide Tiled, Sum;
    UnlinkedSpread(h.free, h.live, k);
    hide Spread;
  }

  lemma FreshApart(pool: Pool, h: Arena, s: seq<Block>, n: nat)
    requires AllInside(s, pool.first, pool.Frame(h.used))
    ensures ApartFrom(Block(pool.Frame(h.used), PAGE * n), s)
  {
  }

  lemma {:induction false} PageRangeSize(u: nat, n: nat)
    ensures |PageRange(u, n)| == n
  {
    if n > 0 {
      PageRangeSize(u, n - 1);
      assert PageRange(u, n) == PageRange(u, n - 1) + {u + n - 1};
      assert u + n - 1 !in PageRange(u, n - 1);
      hide PageRange;
    }
  }

  lemma InFresh(pool: Pool, u: nat, n: nat, a: int)
    ensures In(Block(pool.Frame(u), PAGE * n), a) <==> InPages(pool, PageRange(u, n), a)
  {
    if a >= pool.first {
      var q := (a - pool.first) / PAGE;
      assert q in PageRange(u, n) <==> u <= q < u + n;
      assert PAGE * q <= a - pool.first < PAGE * q + PAGE;
    }
  }

  lemma AddPagesTiled(pool: Pool, h: Arena, n: nat, taken: nat)
    requires Tiled(pool, h)
    ensures Tiled(pool, AddPages(pool, h, n, taken))
  {
    hide In, InSome, PageRange;
    var b := Block(pool.Frame(h.used), PAGE * n);
    var h' := AddPages(pool, h, n, taken);
    forall a: int ensures InSome(h'.free, a) || InSome(h'.live, a) <==> InPages(pool, h'.pages, a) {
      InSomeConcat([b], h.free, a);
      InSomeOne(b, a);
      InFresh(pool, h.used, n, a);
      assert InPages(pool, h'.pages, a) <==> InPages(pool, h.pages, a) || InPages(pool, PageRange(h.used, n), a);
    }
  }

  lemma AddPagesSum(pool: Pool, h: Arena, n: nat, taken: nat)
    requires Sum(h.free) + Sum(h.live) == PAGE * |h.pages| && forall q :: q in h.pages ==> q < h.used
    ensures var h' := AddPages(pool, h, n, taken); Sum(h'.free) + Sum(h'.live) == PAGE * |h'.pages|
  {
    var b := Block(pool.Frame(h.used), PAGE * n);
    SumConcat([b], h.free);
    SumOne(b);
    PageRangeSize(h.used, n);
    assert h.pages !! PageRange(h.used, n);
  }

  lemma AddPagesOk(pool: Pool, h: Arena, n: nat, taken: nat)
    requires ArenaOk(pool, h) && 0 < n <= taken && h.used + taken <= pool.count
    ensures ArenaOk(pool, AddPages(pool, h, n, taken))
  {
    hide Tiled, Sum, Apart;
    AddPagesTiled(pool, h, n, taken);
    AddPagesSum(pool, h, n, taken);
    FreshApart(pool, h, h.free, n);
    FreshApart(pool, h, h.live, n);
    var h' := AddPages(pool, h, n, taken);
    assert Spread(h'.free, h'.live);
    assert AllInside(h'.free, pool.first, pool.Frame(h'.used));
  }

  lemma {:induction false} FindOk(pool: Pool, h: Arena, n: nat)
    requires ArenaOk(pool, h) && n <= MAX_REQUEST
    ensures Find(pool, h, n).Done? ==> ArenaOk(pool, Find(pool, h, n).value)
    decreases pool.count - h.used
  {
    hide ArenaOk;
    var k := FirstFit(h.free, n + HEADER, 0);
    if k < |h.free| {
      TakeOk(pool, h, k);
    } else if n + HEADER >= SMALL_LIMIT {
      if h.used + BlockPages(n) + 1 <= pool.count {
        AddPagesOk(pool, h, BlockPages(n), BlockPages(n) + 1);
        FindOk(pool, AddPages(pool, h, BlockPages(n), BlockPages(n) + 1), n);
      }
    } else if h.used < pool.count && h.free == [] {
      AddPagesOk(pool, h, 1, 1);
      TakeOk(pool, AddPages(pool, h, 1, 1), 0);
    }
  }

  /** Cutting the last live block in two. */
  lemma SplitSpread(free: seq<Block>, init: seq<Block>, b: Block, need: nat)
    requires Spread(free, init + [b]) && need <= b.size
    ensures var t, c := Block(b.addr + need, b.size - need), Block(b.addr, need);
            && ApartFrom(t, free) && ApartFrom(t, init) && ApartFrom(c, free) && ApartFrom(c, init) && Apart(t, c)
            && Spread([t] + free, init + [c])
  {
    var live := init + [b];
    var t, c := Block(b.addr + need, b.size - need), Block(b.addr, need);
    assert live[|init|] == b;
    forall i | 0 <= i < |free| ensures ApartFrom(free[i], init) && Apart(free[i], b) {
      assert ApartFrom(free[i], live);
      assert forall j :: 0 <= j < |init| ==> live[j] == init[j];
    }
    forall j | 0 <= j < |init| ensures Apart(init[j], b) {
      assert live[j] == init[j] && Apart(live[j], live[|init|]);
    }
    assert AllApart(init) by {
      assert forall j :: 0 <= j < |init| ==> live[j] == init[j];
    }
  }

  /** With a leftover of at least a header (or none), splitting keeps the blocks disjoint and the
      tiling exact. */
  lemma SplitOk(pool: Pool, h: Arena, n: nat)
    requires ArenaOk(pool, h) && h.live != [] && n + HEADER <= h.live[|h.live| - 1].size
    requires Leftover(h, n) == 0 || Leftover(h, n) >= HEADER
    ensures ArenaOk(pool, Split(h, n))
  {
    if Leftover(h, n) != 0 {
      hide InSome, InPages, Apart;
      var init, b := h.live[..|h.live| - 1], h.live[|h.live| - 1];
      var t, c := Block(b.addr + n + HEADER, Leftover(h, n)), Block(b.addr, n + HEADER);
      var h' := Split(h, n);
      assert h.live == init + [b];
      assert Tiled(pool, h') by {
        forall a: int ensures InSome(h'.free, a) || InSome(h'.live, a) <==> InPages(pool, h.pages, a) {
          InSomeConcat([t], h.free, a);
          InSomeConcat(init, [c], a);
          InSomeConcat(init, [b], a);
          InSomeOne(t, a);
          InSomeOne(b, a);
          InSomeOne(c, a);
        }
      }
      assert Sum(h'.free) + Sum(h'.live) == PAGE * |h.pages| by {
        SumConcat([t], h.free);
        SumConcat(init, [c]);
        SumConcat(init, [b]);
        SumOne(t);
        SumOne(b);
        SumOne(c);
      }
      hide Tiled, Sum;
      SplitSpread(h.free, init, b, n + HEADER);
      hide Spread;
    }
  }

  lemma GiveBackOk(pool: Pool, h: Arena, p: nat)
    requires ArenaOk(pool, h) && IsLive(h, p)
    ensures ArenaOk(pool, GiveBack(h, p))
  {
    hide In, InSome, InPages, Inside, Apart, LiveIndex;
    var k := LiveIndex(h.live, p);
    var b := h.live[k];
    var h' := GiveBack(h, p);
    assert Tiled(pool, h') by {
      forall a: int ensures InSome(h'.free, a) || InSome(h'.live, a) <==> InPages(pool, h.pages, a) {
        InSomeWithout(h.live, k, a);
        InSomeConcat([b], h.free, a);
        InSomeOne(b, a);
      }
    }
    assert Sum(h'.free) + Sum(h'.live) == PAGE * |h.pages| by {
      SumWithout(h.live, k);
      SumConcat([b], h.free);
      SumOne(b);
    }
    hide Tiled, Sum;
    FreedSpread(h.free, h.live, k);
    hide Spread;
  }

  lemma FreedSpread(free: seq<Block>, live: seq<Block>, k: nat)
    requires Spread(free, live) && k < |live|
    ensures Spread([live[k]] + free, Without(live, k))
  {
    var free', live' := [live[k]] + free, Without(live, k);
    forall i | 0 <= i < |free| ensures ApartFrom(free[i], live') && Apart(live[k], free[i]) {
      assert ApartFrom(free[i], live);
    }
    assert ApartFrom(live[k], live');
  }

  /** The search takes the first block in list order that is large enough; the others keep their order. */
  lemma FindTakesFirst(pool: Pool, h: Arena, n: nat, k: nat)
    requires k < |h.free| && n + 16 <= h.free[k].size && forall j :: 0 <= j < k ==> h.free[j].size < n + 16
    ensures Find(pool, h, n) == Done(h.(free := h.free[..k] + h.free[k + 1..], live := h.live + [h.free[k]]))
  {
    assert FirstFit(h.free, n + HEADER, 0) == k;
  }

  // ---- every run

  /** A request, a release of a live block, or a frame taken by another part of the kernel. */
  datatype Op = Request(n: nat) | Return(p: nat) | Elsewhere

  ghost function Step(pool: Pool, h: Arena, op: Op): Outcome<Arena>
    requires op.Return? ==> IsLive(h, op.p)
  {
    match op
    case Request(n) =>
      var (h', _) :- Allot(pool, h, n);
      Done(h')
    case Return(p) => Done(GiveBack(h, p))
    case Elsewhere => if h.used >= pool.count then Panic else Done(h.(used := h.used + 1))
  }

  /** The clients free only what they hold and the leftovers have room for a header. */
  ghost predicate Enabled(pool: Pool, h: Arena, ops: seq<Op>)
    decreases |ops|
  {
    ops != [] ==>
      && (ops[0].Return? ==> IsLive(h, ops[0].p))
      && (ops[0].Request? ==> ops[0].n <= MAX_REQUEST && CleanSplit(pool, h, ops[0].n))
      && (Step(pool, h, ops[0]).Done? ==> Enabled(pool, Step(pool, h, ops[0]).value, ops[1..]))
  }

  ghost function Run(pool: Pool, h: Arena, ops: seq<Op>): Outcome<Arena>
    requires Enabled(pool, h, ops)
    decreases |ops|
  {
    if ops == [] then Done(h)
    else
      var h' :- Step(pool, h, ops[0]);
      Run(pool, h', ops[1..])
  }

  lemma StepOk(pool: Pool, h: Arena, op: Op)
    requires ArenaOk(pool, h) && (op.Return? ==> IsLive(h, op.p))
    requires op.Request? ==> op.n <= MAX_REQUEST && CleanSplit(pool, h, op.n)
    ensures Step(pool, h, op).Done? ==> ArenaOk(pool, Step(pool, h, op).value)
  {
    match op
    case Request(n) =>
      hide ArenaOk, Find;
      FindOk(pool, h, n);
      if Find(pool, h, n).Done? {
        SplitOk(pool, Find(pool, h, n).value, n);
      }
    case Return(p) =>
      hide ArenaOk;
      GiveBackOk(pool, h, p);
    case Elsewhere =>
      hide Spread, Sum, InSome;
      assert h.used < pool.count ==> Tiled(pool, h.(used := h.used + 1));
  }

  /** In every enabled run of `malloc` and `free`, interleaved with other users of the frame
      allocator, the free and live blocks stay pairwise disjoint, each has room for its header, they
      tile exactly the pages put into the heap, and no byte is lost. */
  lemma {:induction false} RunOk(pool: Pool, h: Arena, ops: seq<Op>)
    requires ArenaOk(pool, h) && Enabled(pool, h, ops)
    ensures Run(pool, h, ops).Done? ==> ArenaOk(pool, Run(pool, h, ops).value)
    decreases |ops|
  {
    hide ArenaOk, Step, CleanSplit;
    if ops != [] {
      StepOk(pool, h, ops[0]);
      if Step(pool, h, ops[0]).Done? {
        RunOk(pool, Step(pool, h, ops[0]).value, ops[1..]);
      }
    }
  }

  /** A block stays live, where it is and as large as it is, until its pointer is freed. */
  lemma LiveUntilFreed(pool: Pool, h: Arena, op: Op, b: Block)
    requires op.Return? ==> IsLive(h, op.p) && op.p != b.addr + HEADER
    requires b in h.live
    ensures Step(pool, h, op).Done? ==> b in Step(pool, h, op).value.live
  {
    var k :| 0 <= k < |h.live| && h.live[k] == b;
    match op
    case Request(n) =>
      hide Find;
      if Find(pool, h, n).Done? {
        var h1 := Find(pool, h, n).value;
        assert h1.live[..|h.live|][k] == b;
        assert Split(h1, n).live[k] == b;
      }
    case Return(p) =>
      var i := LiveIndex(h.live, p);
      var rest := Without(h.live, i);
      assert rest[if k < i then k else k - 1] == b;
    case Elsewhere =>
  }

  lemma {:induction false} LiveThroughout(pool: Pool, h: Arena, ops: seq<Op>, b: Block)
    requires Enabled(pool, h, ops) && Return(b.addr + HEADER) !in ops && b in h.live
    ensures Run(pool, h, ops).Done? ==> b in Run(pool, h, ops).value.live
    decreases |ops|
  {
    if ops != [] {
      assert ops[0] in ops && forall op :: op in ops[1..] ==> op in ops;
      LiveUntilFreed(pool, h, ops[0], b);
      hide Step, CleanSplit;
      if Step(pool, h, ops[0]).Done? {
        LiveThroughout(pool, Step(pool, h, ops[0]).value, ops[1..], b);
      }
    }
  }

  /** Different live blocks have different payload pointers. */
  lemma LiveIndexOf(pool: Pool, h: Arena, b: Block)
    requires ArenaOk(pool, h) && b in h.live
    ensures IsLive(h, b.addr + HEADER) && h.live[LiveIndex(h.live, b.addr + HEADER)] == b
  {
    hide Tiled, Sum;
    var k: nat :| k < |h.live| && h.live[k] == b;
    var i := LiveIndex(h.live, b.addr + HEADER);
    assert Inside(h.live[k], pool.first, pool.Frame(h.used)) && Inside(h.live[i], pool.first, pool.Frame(h.used));
    assert i < k ==> Apart(h.live[i], h.live[k]);
    assert k < i ==> Apart(h.live[k], h.live[i]);
  }

  lemma AllotBlock(pool: Pool, h: Arena, n: nat)
    requires Allot(pool, h, n).Done?
    ensures var (h', p) := Allot(pool, h, n).value; p >= HEADER && Block(p - HEADER, n + HEADER) in h'.live
  {
    hide Find;
    var (h', p) := Allot(pool, h, n).value;
    assert h'.live[|h'.live| - 1] == Block(p - HEADER, n + HEADER);
  }

  /** Whatever happens in between, freeing the pointer that `malloc(n)` returned gives back precisely the extent
      that was handed out, and it becomes the first free block. */
  lemma FreeUndoesMalloc(pool: Pool, h: Arena, n: nat, ops: seq<Op>)
    requires ArenaOk(pool, h) && n <= MAX_REQUEST && CleanSplit(pool, h, n) && Allot(pool, h, n).Done?
    requires var (h1, p) := Allot(pool, h, n).value; Enabled(pool, h1, ops) && Return(p) !in ops && Run(pool, h1, ops).Done?
    ensures var (h1, p) := Allot(pool, h, n).value;
            var h2 := Run(pool, h1, ops).value;
            && p >= HEADER && IsLive(h2, p)
            && GiveBack(h2, p).free == [Block(p - HEADER, n + HEADER)] + h2.free
            && Sum(GiveBack(h2, p).live) + n + HEADER == Sum(h2.live)
  {
    hide ArenaOk, Allot, CleanSplit, Enabled, Run, Sum;
    var (h1, p) := Allot(pool, h, n).value;
    AllotBlock(pool, h, n);
    var b := Block(p - HEADER, n + HEADER);
    assert Step(pool, h, Request(n)) == Done(h1);
    StepOk(pool, h, Request(n));
    LiveThroughout(pool, h1, ops, b);
    RunOk(pool, h1, ops);
    LiveIndexOf(pool, Run(pool, h1, ops).value, b);
    SumWithout(Run(pool, h1, ops).value.live, LiveIndex(Run(pool, h1, ops).value.live, p));
  }

  // ---- sizes that are multiples of 16

  ghost predicate Even16(s: seq<Block>) {
    forall i :: 0 <= i < |s| ==> s[i].size % HEADER == 0
  }

  ghost predicate Rounded(h: Arena) {
    Even16(h.free) && Even16(h.live)
  }

  lemma Multiple16(a: nat, b: nat)
    requires a % HEADER == 0 && b % HEADER == 0 && b <= a
    ensures (a - b) % HEADER == 0 && (a - b == 0 || a - b >= HEADER)
  {
  }

  lemma {:induction false} FindRounded(pool: Pool, h: Arena, n: nat)
    requires Rounded(h) && n % HEADER == 0
    ensures Find(pool, h, n).Done? ==> Rounded(Find(pool, h, n).value)
    decreases pool.count - h.used
  {
    hide Rounded, FirstFit, BlockPages, AddPages;
    var k := FirstFit(h.free, n + HEADER, 0);
    if k < |h.free| {
      TakeRounded(h, k);
    } else if n + HEADER >= SMALL_LIMIT {
      if h.used + BlockPages(n) + 1 <= pool.count {
        var h' := AddPages(pool, h, BlockPages(n), BlockPages(n) + 1);
        AddPagesRounded(pool, h, BlockPages(n), BlockPages(n) + 1);
        FindRounded(pool, h', n);
      }
    } else if h.used < pool.count && h.free == [] {
      AddPagesRounded(pool, h, 1, 1);
      TakeRounded(AddPages(pool, h, 1, 1), 0);
    }
  }

  lemma TakeRounded(h: Arena, k: nat)
    requires Rounded(h) && k < |h.free|
    ensures Rounded(Take(h, k))
  {
  }

  lemma AddPagesRounded(pool: Pool, h: Arena, n: nat, taken: nat)
    requires Rounded(h)
    ensures Rounded(AddPages(pool, h, n, taken)) && |AddPages(pool, h, n, taken).free| == |h.free| + 1
    ensures AddPages(pool, h, n, taken).used == h.used + taken
  {
    Arith.DivMod(PAGE * n, HEADER, 256 * n, 0);
  }

  /** Requests in multiples of 16 always split cleanly and keep every block a multiple of 16. */
  lemma RoundedRequest(pool: Pool, h: Arena, n: nat)
    requires Rounded(h) && n % HEADER == 0
    ensures CleanSplit(pool, h, n)
    ensures Allot(pool, h, n).Done? ==> Rounded(Allot(pool, h, n).value.0)
  {
    FindRounded(pool, h, n);
    hide Find;
    if Find(pool, h, n).Done? {
      var h1 := Find(pool, h, n).value;
      Multiple16(h1.live[|h1.live| - 1].size, n + HEADER);
    }
  }

  ghost predicate RoundedOps(ops: seq<Op>) {
    forall i :: 0 <= i < |ops| && ops[i].Request? ==> ops[i].n <= MAX_REQUEST && ops[i].n % HEADER == 0
  }

  /** The clients free only what they hold. */
  ghost predicate FreesLive(pool: Pool, h: Arena, ops: seq<Op>)
    decreases |ops|
  {
    ops != [] ==>
      && (ops[0].Return? ==> IsLive(h, ops[0].p))
      && (Step(pool, h, ops[0]).Done? ==> FreesLive(pool, Step(pool, h, ops[0]).value, ops[1..]))
  }

  /** So runs on such sizes are enabled as a whole. */
  lemma {:induction false} RoundedRunsEnabled(pool: Pool, h: Arena, ops: seq<Op>)
    requires Rounded(h) && RoundedOps(ops) && FreesLive(pool, h, ops)
    ensures Enabled(pool, h, ops)
    decreases |ops|
  {
    if ops != [] {
      hide Allot, CleanSplit;
      if ops[0].Request? {
        RoundedRequest(pool, h, ops[0].n);
      }
      if Step(pool, h, ops[0]).Done? {
        assert Rounded(Step(pool, h, ops[0]).value);
        RoundedRunsEnabled(pool, Step(pool, h, ops[0]).value, ops[1..]);
      }
    }
  }

  // ---- when a request fails

  ghost predicate NoFit(h: Arena, n: nat) {
    FirstFit(h.free, n + HEADER, 0) == |h.free|
  }

  /** A small request follows the null pointer exactly when the list is not empty, nothing in it
      fits, and a frame was still there to be inserted at the wrong end. */
  lemma SmallFaultsIff(pool: Pool, h: Arena, n: nat)
    requires ArenaOk(pool, h) && n + HEADER < SMALL_LIMIT
    ensures Find(pool, h, n).Fault? <==> h.free != [] && NoFit(h, n) && h.used < pool.count
    ensures Find(pool, h, n).Panic? <==> NoFit(h, n) && h.used == pool.count
  {
  }

  /** The size that `CombineBlocks` passes on: an `int` product, sign-extended to 64 bits. */
  function ProductSize(n: nat): nat {
    var p := PAGE * BlockPages(n) % 0x1_0000_0000;
    if p < INT_LIMIT then p else p + 0xFFFF_FFFF_0000_0000
  }

  /** For every request whose pages an `int` can count, it is the size of the pages taken if and only if the request is
      at most 2 GiB - 4096. */
  lemma ProductExactIff(n: nat)
    requires n < 0x800_0000_0000
    ensures ProductSize(n) == PAGE * BlockPages(n) <==> n <= MAX_REQUEST
  {
    var s := PAGE * BlockPages(n);
    assert n <= s < n + PAGE by {
      assert n + PAGE - 1 == (n + PAGE - 1) / PAGE * PAGE + (n + PAGE - 1) % PAGE;
    }
    if n <= MAX_REQUEST {
      Arith.DivMod(s, 0x1_0000_0000, 0, s);
    }
  }

  /** At 2 GiB the node is said to hold almost the whole address space. */
  lemma ProductAtTwoGiB()
    ensures ProductSize(0x8000_0000) == 0xFFFF_FFFF_8000_0000
  {
  }

  /** One growth gives a large request its block exactly when n mod 4096 is in 1..4080. */
  lemma OneGrowthSufficesIff(n: nat)
    requires SMALL_LIMIT <= n + HEADER && n <= MAX_REQUEST
    ensures n + HEADER <= PAGE * BlockPages(n) <==> 1 <= n % PAGE <= 4080
  {
    var q, r := n / PAGE, n % PAGE;
    assert n == PAGE * q + r;
    if r == 0 {
      Arith.DivMod(n + PAGE - 1, PAGE, q, PAGE - 1);
    } else {
      Arith.DivMod(n + PAGE - 1, PAGE, q + 1, r - 1);
    }
  }

  /** Otherwise a large request that finds no fit takes every frame and panics, however much memory
      there is: each new block lacks the room for the header. */
  lemma {:induction false} LargeWithoutRoomPanics(pool: Pool, h: Arena, n: nat)
    requires SMALL_LIMIT <= n + HEADER && n <= MAX_REQUEST && !(1 <= n % PAGE <= 4080) && NoFit(h, n)
    ensures Find(pool, h, n) == Panic
    decreases pool.count - h.used
  {
    OneGrowthSufficesIff(n);
    if h.used + BlockPages(n) + 1 <= pool.count {
      var h' := AddPages(pool, h, BlockPages(n), BlockPages(n) + 1);
      assert forall j :: 0 < j < |h'.free| ==> h'.free[j] == h.free[j - 1];
      assert NoFit(h', n);
      LargeWithoutRoomPanics(pool, h', n);
    }
  }

  /** With room, it panics only when the frames run out. */
  lemma LargeWithRoom(pool: Pool, h: Arena, n: nat)
    requires SMALL_LIMIT <= n + HEADER && n <= MAX_REQUEST && 1 <= n % PAGE <= 4080 && NoFit(h, n)
    ensures Find(pool, h, n) == Panic <==> h.used + BlockPages(n) + 1 > pool.count
    ensures Find(pool, h, n).Done? ==>
              && Find(pool, h, n).value.free == h.free
              && Find(pool, h, n).value.live == h.live + [Block(pool.Frame(h.used), PAGE * BlockPages(n))]
              && Find(pool, h, n).value.used == h.used + BlockPages(n) + 1
  {
    OneGrowthSufficesIff(n);
    if h.used + BlockPages(n) + 1 <= pool.count {
      var h' := AddPages(pool, h, BlockPages(n), BlockPages(n) + 1);
      assert FirstFit(h'.free, n + HEADER, 0) == 0;
      assert Without(h'.free, 0) == h.free;
    }
  }
}
