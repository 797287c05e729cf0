/** Many requests of one size (src/mm/heapalloc/heap.c): exactly when they are served. The kernel's own uses are of this
    kind: 120 bytes for each file of the ramdisk, 224 bytes for each task. */
module Requests {
  import opened Outcomes
  import opened Frames
  import opened HeapList
  import opened A = Arena
  import Arith

  /** How many blocks for n bytes fit into a page, and what is then left of it. */
  function PerPage(n: nat): nat {
    PAGE / (n + HEADER)
  }

  function Rest(n: nat): nat {
    PAGE % (n + HEADER)
  }

  /** A small request that always splits cleanly: nothing is left of the page, or room for a header. */
  predicate Regular(n: nat) {
    n + HEADER < SMALL_LIMIT && (Rest(n) == 0 || Rest(n) >= HEADER)
  }

  lemma PageParts(n: nat)
    requires n + HEADER <= PAGE
    ensures PAGE == PerPage(n) * (n + HEADER) + Rest(n) && Rest(n) < n + HEADER && PerPage(n) >= 1
  {
    assert PAGE == PAGE / (n + HEADER) * (n + HEADER) + PAGE % (n + HEADER);
  }

  // ---- the free list while only such requests are made

  /** i blocks of the last page are in use: the free list holds the other bytes of that page, if any. A page that is
      used up without a rest leaves the list empty, like no page at all. */
  ghost predicate Place(h: A.Arena, n: nat, i: nat) {
    && i <= PerPage(n) && (i == PerPage(n) ==> Rest(n) != 0)
    && (if i == 0 then h.free == [] else |h.free| == 1 && h.free[0].size == PAGE - i * (n + HEADER))
  }

  function Next(n: nat, i: nat): nat {
    if i + 1 == PerPage(n) && Rest(n) == 0 then 0 else i + 1
  }

  /** What is left of the page after i + 1 blocks. */
  lemma RoomFor(n: nat, i: nat)
    requires n + HEADER <= PAGE && i < PerPage(n)
    ensures PAGE - i * (n + HEADER) >= n + HEADER
    ensures var left := PAGE - (i + 1) * (n + HEADER);
            && left == PAGE - i * (n + HEADER) - (n + HEADER)
            && (left == 0 <==> i + 1 == PerPage(n) && Rest(n) == 0)
            && (left == 0 || left >= Rest(n) + (if i + 1 == PerPage(n) then 0 else n + HEADER))
  {
    PageParts(n);
    var q, k := n + HEADER, PerPage(n);
    hide PerPage, Rest;
    Arith.Distribute(k, i + 1, q);
    Arith.Distribute(i + 1, 1, q);
    if i + 1 < k {
      Arith.AtLeastOnce(k - (i + 1), q);
    }
  }

  /** One more request: served, unless the page that it needs is not there, or the rest of a page is in the way. */
  lemma PlaceStep(pool: Pool, h: A.Arena, n: nat, i: nat)
    requires Regular(n) && Place(h, n, i) && h.used <= pool.count
    ensures CleanSplit(pool, h, n)
    ensures Allot(pool, h, n).Fault? <==> i == PerPage(n) && h.used < pool.count
    ensures Allot(pool, h, n).Panic? <==> (i == 0 || i == PerPage(n)) && h.used == pool.count
    ensures Allot(pool, h, n).Done? ==>
              var h' := Allot(pool, h, n).value.0;
              Place(h', n, Next(n, i)) && h'.used == h.used + (if i == 0 then 1 else 0)
  {
    PageParts(n);
    if i == PerPage(n) {
      RestInTheWay(pool, h, n, i);
    } else {
      RoomFor(n, i);
      if i == 0 {
        FromNewPage(pool, h, n);
      } else {
        FromOldPage(pool, h, n);
      }
    }
  }

  lemma RestInTheWay(pool: Pool, h: A.Arena, n: nat, i: nat)
    requires Regular(n) && Place(h, n, i) && i == PerPage(n) > 0 && h.used <= pool.count
    ensures Allot(pool, h, n) == if h.used < pool.count then Fault else Panic
    ensures CleanSplit(pool, h, n)
  {
    PageParts(n);
    hide PerPage, Rest;
    assert h.free[0].size < n + HEADER;
    assert FirstFit(h.free, n + HEADER, 0) == 1;
  }

  lemma FromNewPage(pool: Pool, h: A.Arena, n: nat)
    requires n + HEADER < SMALL_LIMIT && h.free == [] && h.used <= pool.count
    ensures Find(pool, h, n) ==
              if h.used == pool.count then Panic
              else Done(h.(live := h.live + [Block(pool.Frame(h.used), PAGE)], used := h.used + 1,
                           pages := h.pages + PageRange(h.used, 1)))
    ensures h.used < pool.count ==>
              && Allot(pool, h, n).Done? && Leftover(Find(pool, h, n).value, n) == PAGE - (n + HEADER)
              && Allot(pool, h, n).value.0.free == [Block(pool.Frame(h.used) + n + HEADER, PAGE - (n + HEADER))]
              && Allot(pool, h, n).value.0.used == h.used + 1
  {
    hide PageRange;
    if h.used < pool.count {
      var h1 := AddPages(pool, h, 1, 1);
      assert Take(h1, 0).free == [];
    }
  }

  lemma FromOldPage(pool: Pool, h: A.Arena, n: nat)
    requires |h.free| == 1 && n + HEADER <= h.free[0].size
    ensures Find(pool, h, n) == Done(Take(h, 0)) && Take(h, 0).free == []
    ensures Leftover(Take(h, 0), n) == h.free[0].size - (n + HEADER)
    ensures var left := h.free[0].size - (n + HEADER);
            && Allot(pool, h, n).Done?
            && Allot(pool, h, n).value.0.free ==
                 (if left == 0 then [] else [Block(h.free[0].addr + n + HEADER, left)])
            && Allot(pool, h, n).value.0.used == h.used
  {
    assert FirstFit(h.free, n + HEADER, 0) == 0;
  }

  // ---- every run of such requests, with other users of the frame allocator in between

  ghost predicate Only(ops: seq<A.Op>, n: nat) {
    forall i :: 0 <= i < |ops| ==> ops[i] == Request(n) || ops[i] == Elsewhere
  }

  function Count(ops: seq<A.Op>): nat {
    if ops == [] then 0 else (if ops[0].Request? then 1 else 0) + Count(ops[1..])
  }

  /** The place after c more requests. */
  function After(n: nat, i: nat, c: nat): nat
    decreases c
  {
    if c == 0 then i else After(n, Next(n, i), c - 1)
  }

  /** Such a run always splits cleanly, and the free list is known after it. */
  lemma {:induction false} UniformRun(pool: Pool, h: A.Arena, n: nat, i: nat, ops: seq<A.Op>)
    requires Regular(n) && Place(h, n, i) && h.used <= pool.count && Only(ops, n)
    ensures Enabled(pool, h, ops)
    ensures A.Run(pool, h, ops).Done? ==> Place(A.Run(pool, h, ops).value, n, After(n, i, Count(ops)))
    decreases |ops|
  {
    hide Place, Regular, Allot, CleanSplit, Next;
    if ops != [] {
      SmallEnough(n);
      assert Only(ops[1..], n);
      if ops[0].Request? {
        PlaceStep(pool, h, n, i);
        if Allot(pool, h, n).Done? {
          UniformRun(pool, Allot(pool, h, n).value.0, n, Next(n, i), ops[1..]);
        }
      } else if h.used < pool.count {
        SamePlace(h, n, i);
        UniformRun(pool, h.(used := h.used + 1), n, i, ops[1..]);
      }
    }
  }

  lemma SmallEnough(n: nat)
    requires Regular(n)
    ensures n <= MAX_REQUEST
  {
  }

  lemma SamePlace(h: A.Arena, n: nat, i: nat)
    requires Place(h, n, i)
    ensures Place(h.(used := h.used + 1), n, i)
  {
  }

  /** Unless the blocks fill pages without a rest, all of them come out of one page. */
  lemma {:induction false} AfterWithRest(n: nat, i: nat, c: nat)
    requires Rest(n) != 0
    ensures After(n, i, c) == i + c
    decreases c
  {
    if c > 0 {
      AfterWithRest(n, i + 1, c - 1);
    }
  }

  lemma FitsInPage(n: nat, c: nat)
    requires n + HEADER <= PAGE
    ensures c <= PerPage(n) <==> c * (n + HEADER) <= PAGE
  {
    PageParts(n);
    var q, k := n + HEADER, PerPage(n);
    hide PerPage, Rest;
    Arith.Distribute(k, c, q);
    if c > k {
      Arith.Distribute(c, k, q);
      Arith.AtLeastOnce(c - k, q);
    }
  }

  /** In every such run from an empty list, whoever else takes frames in between, the requests served fit into one page,
      unless the blocks fill pages without a rest. */
  lemma AtMostOnePage(pool: Pool, h: A.Arena, n: nat, ops: seq<A.Op>)
    requires Regular(n) && h.free == [] && h.used <= pool.count && Only(ops, n)
    ensures Enabled(pool, h, ops)
    ensures A.Run(pool, h, ops).Done? ==> PAGE % (n + HEADER) == 0 || Count(ops) * (n + HEADER) <= PAGE
  {
    PageParts(n);
    assert Place(h, n, 0);
    UniformRun(pool, h, n, 0, ops);
    if A.Run(pool, h, ops).Done? && Rest(n) != 0 {
      AfterWithRest(n, 0, Count(ops));
      FitsInPage(n, Count(ops));
    }
  }

  // ---- c requests in a row, exactly

  function Repeat(n: nat, c: nat): (ops: seq<A.Op>)
    ensures |ops| == c && forall i :: 0 <= i < c ==> ops[i] == Request(n)
  {
    if c == 0 then [] else [Request(n)] + Repeat(n, c - 1)
  }

  /** Pages taken for c requests. */
  function Pages(n: nat, i: nat, c: nat): nat
    decreases c
  {
    if c == 0 then 0 else (if i == 0 then 1 else 0) + Pages(n, Next(n, i), c - 1)
  }

  lemma RepeatStep(pool: Pool, h: A.Arena, n: nat, c: nat)
    requires c > 0 && Enabled(pool, h, Repeat(n, c))
    ensures n <= MAX_REQUEST && CleanSplit(pool, h, n)
    ensures match Allot(pool, h, n)
            case Done((h', _)) => Enabled(pool, h', Repeat(n, c - 1)) && A.Run(pool, h, Repeat(n, c)) == A.Run(pool, h', Repeat(n, c - 1))
            case Panic => A.Run(pool, h, Repeat(n, c)) == Panic
            case Fault => A.Run(pool, h, Repeat(n, c)) == Fault
  {
    hide Allot, CleanSplit;
    assert Repeat(n, c)[0] == Request(n) && Repeat(n, c)[1..] == Repeat(n, c - 1);
  }

  /** All are served if and only if the page never ends in a rest before the last, and the pages are there. */
  lemma {:induction false} RepeatOutcome(pool: Pool, h: A.Arena, n: nat, i: nat, c: nat)
    requires Regular(n) && Place(h, n, i) && h.used <= pool.count
    ensures Enabled(pool, h, Repeat(n, c))
    ensures A.Run(pool, h, Repeat(n, c)).Done? <==> (Rest(n) == 0 || i + c <= PerPage(n)) && h.used + Pages(n, i, c) <= pool.count
    ensures A.Run(pool, h, Repeat(n, c)).Fault? <==>
              Rest(n) != 0 && i + c > PerPage(n) && h.used + (if i == 0 then 1 else 0) < pool.count
    decreases c
  {
    hide Place, Regular, Allot, PerPage, Rest, Enabled, Next, A.Run;
    UniformRun(pool, h, n, i, Repeat(n, c));
    RegularParts(n);
    PlaceBound(h, n, i);
    NextPlace(n, i);
    if c == 0 {
      NoRequests(pool, h, n);
    } else {
      PlaceStep(pool, h, n, i);
      RepeatStep(pool, h, n, c);
      if Allot(pool, h, n).Done? {
        var h' := Allot(pool, h, n).value.0;
        RepeatOutcome(pool, h', n, Next(n, i), c - 1);
      } else {
        NoPages(n, i, c);
      }
    }
  }

  lemma RegularParts(n: nat)
    requires Regular(n)
    ensures PerPage(n) >= 1 && n + HEADER <= PAGE
  {
    PageParts(n);
  }

  lemma NextPlace(n: nat, i: nat)
    ensures Next(n, i) == if i + 1 == PerPage(n) && Rest(n) == 0 then 0 else i + 1
  {
  }

  lemma NoRequests(pool: Pool, h: A.Arena, n: nat)
    ensures Repeat(n, 0) == [] && Enabled(pool, h, []) && A.Run(pool, h, []) == Done(h)
  {
  }

  lemma PlaceBound(h: A.Arena, n: nat, i: nat)
    requires Place(h, n, i)
    ensures i <= PerPage(n) && (i == PerPage(n) ==> Rest(n) != 0)
  {
  }

  lemma NoPages(n: nat, i: nat, c: nat)
    requires c > 0
    ensures i == 0 ==> Pages(n, i, c) >= 1
  {
  }

  /** The pages in closed form. */
  lemma {:induction false} PagesClosed(n: nat, i: nat, c: nat)
    requires n + HEADER <= PAGE && Rest(n) == 0 && i < PerPage(n)
    ensures Pages(n, i, c) == (i + c + PerPage(n) - 1) / PerPage(n) - (if i > 0 then 1 else 0)
    decreases c
  {
    PageParts(n);
    NextPlace(n, i);
    var k := PerPage(n);
    hide PerPage, Rest, Next;
    if c == 0 {
      Arith.DivMod(i + k - 1, k, if i > 0 then 1 else 0, if i > 0 then i - 1 else k - 1);
    } else if i + 1 < k {
      PagesClosed(n, i + 1, c - 1);
    } else {
      PagesClosed(n, 0, c - 1);
      AddOne(c - 1 + k - 1, k);
    }
  }

  lemma AddOne(x: nat, k: nat)
    requires k > 0
    ensures (x + k) / k == x / k + 1
  {
    Arith.Distribute(x / k, -1, k);
    Arith.DivMod(x + k, k, x / k + 1, x % k);
  }

  lemma {:induction false} PagesWithRest(n: nat, i: nat, c: nat)
    requires Rest(n) != 0
    ensures Pages(n, i, c) == if i == 0 && c > 0 then 1 else 0
    decreases c
  {
    if c > 0 {
      PagesWithRest(n, i + 1, c - 1);
    }
  }

  /** From an empty list and with no other use of the heap, c requests of n bytes are all served if and only if their
      blocks fit into one page or fill pages without a rest, and the pages are there. */
  lemma AllServedIff(pool: Pool, h: A.Arena, n: nat, c: nat)
    requires Regular(n) && h.free == [] && h.used <= pool.count
    ensures Enabled(pool, h, Repeat(n, c)) && PerPage(n) > 0
    ensures A.Run(pool, h, Repeat(n, c)).Done? <==>
              && (c * (n + HEADER) <= PAGE || PAGE % (n + HEADER) == 0)
              && h.used + (c + PerPage(n) - 1) / PerPage(n) <= pool.count
    ensures A.Run(pool, h, Repeat(n, c)).Fault? <==>
              c * (n + HEADER) > PAGE && PAGE % (n + HEADER) != 0 && h.used + 1 < pool.count
  {
    hide Place, A.Run, Repeat, Enabled, Regular, Pages, PerPage;
    RegularParts(n);
    EmptyPlace(h, n);
    RepeatOutcome(pool, h, n, 0, c);
    FitsInPage(n, c);
    PagesFromEmpty(n, c);
  }

  lemma EmptyPlace(h: A.Arena, n: nat)
    requires Regular(n) && h.free == []
    ensures Place(h, n, 0)
  {
    PageParts(n);
  }

  lemma PagesFromEmpty(n: nat, c: nat)
    requires Regular(n)
    ensures PerPage(n) > 0
    ensures Rest(n) == 0 || c <= PerPage(n) ==> Pages(n, 0, c) == (c + PerPage(n) - 1) / PerPage(n)
  {
    PageParts(n);
    var k := PerPage(n);
    if Rest(n) == 0 {
      PagesClosed(n, 0, c);
    } else if c <= k {
      PagesWithRest(n, 0, c);
      hide PerPage, Pages, Rest;
      if c == 0 {
        Arith.DivMod(k - 1, k, 0, k - 1);
      } else {
        Arith.DivMod(c + k - 1, k, 1, c - 1);
      }
    }
  }

  // ---- the kernel's own requests

  const FILE_NODE: nat := 120 // sizeof(struct FileNode)
  const PROCESS_FRAME: nat := 224 // sizeof(struct ProcessFrame)

  /** At boot the heap holds the nodes of at most 30 files; the node of the 31st follows the null pointer. */
  lemma FilesAtBoot(pool: Pool, h: A.Arena, files: nat)
    requires h.free == [] && h.used < pool.count
    ensures Enabled(pool, h, Repeat(FILE_NODE, files))
    ensures A.Run(pool, h, Repeat(FILE_NODE, files)).Done? <==> files <= 30
    ensures A.Run(pool, h, Repeat(FILE_NODE, files)).Fault? <==> files > 30 && h.used + 1 < pool.count
  {
    assert PerPage(FILE_NODE) == 30 && Rest(FILE_NODE) == 16;
    assert Regular(FILE_NODE);
    hide Place, A.Run, Repeat, Enabled, Regular, Pages, PerPage, Rest;
    EmptyPlace(h, FILE_NODE);
    RepeatOutcome(pool, h, FILE_NODE, 0, files);
    PagesWithRest(FILE_NODE, 0, files);
  }

  /** Whatever frames the address spaces and stacks take in between, the heap holds the frames of at most 17 tasks. */
  lemma TasksAtBoot(pool: Pool, h: A.Arena, ops: seq<A.Op>)
    requires h.free == [] && h.used <= pool.count && Only(ops, PROCESS_FRAME)
    ensures Enabled(pool, h, ops)
    ensures A.Run(pool, h, ops).Done? ==> Count(ops) <= 17
    ensures A.Run(pool, h, ops).Done? && Count(ops) == 17 ==>
              var h' := A.Run(pool, h, ops).value;
              Allot(pool, h', PROCESS_FRAME).Fault? <==> h'.used < pool.count
  {
    Arith.DivMod(PAGE, PROCESS_FRAME + HEADER, 17, 16);
    assert Place(h, PROCESS_FRAME, 0);
    UniformRun(pool, h, PROCESS_FRAME, 0, ops);
    AfterWithRest(PROCESS_FRAME, 0, Count(ops));
    if A.Run(pool, h, ops).Done? && Count(ops) == 17 {
      UsedInPool(pool, h, ops);
      PlaceStep(pool, A.Run(pool, h, ops).value, PROCESS_FRAME, 17);
    }
  }

  lemma {:induction false} UsedInPool(pool: Pool, h: A.Arena, ops: seq<A.Op>)
    requires h.used <= pool.count && Enabled(pool, h, ops)
    ensures A.Run(pool, h, ops).Done? ==> A.Run(pool, h, ops).value.used <= pool.count
    decreases |ops|
  {
    hide CleanSplit;
    if ops != [] && A.Step(pool, h, ops[0]).Done? {
      if ops[0].Request? {
        FindUsed(pool, h, ops[0].n);
      }
      UsedInPool(pool, A.Step(pool, h, ops[0]).value, ops[1..]);
    }
  }

  lemma {:induction false} FindUsed(pool: Pool, h: A.Arena, n: nat)
    requires h.used <= pool.count
    ensures Find(pool, h, n).Done? ==> Find(pool, h, n).value.used <= pool.count
    decreases pool.count - h.used
  {
    hide FirstFit;
    if FirstFit(h.free, n + HEADER, 0) == |h.free| && n + HEADER >= SMALL_LIMIT && h.used + BlockPages(n) + 1 <= pool.count {
      FindUsed(pool, AddPages(pool, h, BlockPages(n), BlockPages(n) + 1), n);
    }
  }

  // ---- requests of any small sizes out of one page

  ghost predicate Small(ops: seq<A.Op>) {
    forall i :: 0 <= i < |ops| ==> ops[i] == Elsewhere || (ops[i].Request? && ops[i].n + HEADER < SMALL_LIMIT)
  }

  /** The bytes their blocks take. */
  function Bytes(ops: seq<A.Op>): nat {
    if ops == [] then 0 else (if ops[0].Request? then ops[0].n + HEADER else 0) + Bytes(ops[1..])
  }

  /** b bytes of one page are in use, and the rest of it, if a page was taken at all, is the only free block. */
  ghost predicate OnePage(pool: Pool, h: A.Arena, b: nat) {
    if b == 0 then h.free == []
    else
      && |h.free| == 1 && h.free[0].size == PAGE - b
      && h.free[0].End() >= pool.first && (h.free[0].End() - pool.first) % PAGE == 0
  }

  lemma OnePageStep(pool: Pool, h: A.Arena, b: nat, n: nat)
    requires OnePage(pool, h, b) && h.used <= pool.count && b + n + HEADER + HEADER <= PAGE
    ensures CleanSplit(pool, h, n)
    ensures Allot(pool, h, n).Done? ==>
              var h' := Allot(pool, h, n).value.0;
              OnePage(pool, h', b + n + HEADER) && h'.used <= pool.count
  {
    hide A.PageRange;
    if b == 0 {
      FromNewPage(pool, h, n);
      if h.used < pool.count {
        Arith.DivMod(PAGE * (h.used + 1), PAGE, h.used + 1, 0);
      }
    } else {
      FromOldPage(pool, h, n);
    }
  }

  /** Small requests of any sizes, in any order and with frames taken by others in between, come out of one page while
      they leave room for a header. */
  lemma {:induction false} OnePageRun(pool: Pool, h: A.Arena, b: nat, ops: seq<A.Op>)
    requires OnePage(pool, h, b) && h.used <= pool.count && Small(ops) && b + Bytes(ops) + HEADER <= PAGE
    ensures Enabled(pool, h, ops)
    ensures A.Run(pool, h, ops).Done? ==> OnePage(pool, A.Run(pool, h, ops).value, b + Bytes(ops))
    decreases |ops|
  {
    hide OnePage, Allot, CleanSplit;
    if ops != [] {
      assert Small(ops[1..]);
      if ops[0].Request? {
        OnePageStep(pool, h, b, ops[0].n);
        if Allot(pool, h, ops[0].n).Done? {
          OnePageRun(pool, Allot(pool, h, ops[0].n).value.0, b + ops[0].n + HEADER, ops[1..]);
        }
      } else if h.used < pool.count {
        SamePage(pool, h, b);
        OnePageRun(pool, h.(used := h.used + 1), b, ops[1..]);
      }
    }
  }

  lemma SamePage(pool: Pool, h: A.Arena, b: nat)
    requires OnePage(pool, h, b)
    ensures OnePage(pool, h.(used := h.used + 1), b)
  {
  }

  /** 23 files and three tasks, in any order, leave 248 bytes of the page: the fourth task's frame then leaves 8, too few
      for a header. */
  lemma FourthTaskSplitsBadly(pool: Pool, h: A.Arena, ops: seq<A.Op>)
    requires h.free == [] && h.used <= pool.count && Small(ops)
    requires Bytes(ops) == 23 * (FILE_NODE + HEADER) + 3 * (PROCESS_FRAME + HEADER)
    ensures Enabled(pool, h, ops)
    ensures A.Run(pool, h, ops).Done? ==>
              var h' := A.Run(pool, h, ops).value;
              && OnePage(pool, h', PAGE - 248) && Find(pool, h', PROCESS_FRAME).Done?
              && Leftover(Find(pool, h', PROCESS_FRAME).value, PROCESS_FRAME) == 8
              && !CleanSplit(pool, h', PROCESS_FRAME)
  {
    assert OnePage(pool, h, 0);
    OnePageRun(pool, h, 0, ops);
    if A.Run(pool, h, ops).Done? {
      FromOldPage(pool, A.Run(pool, h, ops).value, PROCESS_FRAME);
    }
  }
}
