/** The page frame allocator (src/mm/allocator/allocator.c): a table of frames placed at the
    start of the largest usable region, scanned for the first free entry. */
module Frames {
  import opened Ram
  import opened Outcomes

  const PAGE: int := 0x1000
  const SIZEOF_PAGE: int := 16 // a pointer and a one-bit flag, padded

  datatype Page = Page(ptr: nat, free: bool)

  /** What the allocator's clients share: the memory and the frame table. */
  datatype Machine = Machine(ram: Memory, frames: seq<Page>)

  datatype MapEntry = MapEntry(base: nat, length: nat, kind: nat)

  const USABLE: nat := 0

  function AlignUp(value: nat, boundary: nat): nat
    requires boundary > 0
  {
    (value + (boundary - 1)) / boundary * boundary
  }

  // ---- the two operations as functions

  function FirstFree(f: seq<Page>, i: nat): (k: nat)
    requires i <= |f|
    ensures i <= k <= |f|
    ensures forall j :: i <= j < k ==> !f[j].free
    ensures k < |f| ==> f[k].free
    decreases |f| - i
  {
    if i == |f| || f[i].free then i else FirstFree(f, i + 1)
  }

  function Claim(m: Machine): Outcome<(Machine, nat)> {
    var k := FirstFree(m.frames, 0);
    if k == |m.frames| then Panic
    else
      var a := m.frames[k].ptr;
      Done((Machine(Fill(m.ram, a, a + PAGE, 0), m.frames[k := Page(a, false)]), a))
  }

  function Release(f: seq<Page>, addr: nat): (r: seq<Page>)
    ensures |r| == |f|
    ensures forall i :: 0 <= i < |f| ==> r[i] == if f[i].ptr == addr then Page(addr, true) else f[i]
  {
    if f == [] then []
    else
      Release(f[..|f| - 1], addr) + [var p := f[|f| - 1]; if p.ptr == addr then Page(addr, true) else p]
  }

  // ---- the shape every frame table has

  ghost predicate Layout(f: seq<Page>, first: nat) {
    && first % PAGE == 0
    && (f != [] ==> first > 0)
    && forall i :: 0 <= i < |f| ==> f[i].ptr == first + PAGE * i
  }

  /** The frames that are handed out. */
  ghost function Held(f: seq<Page>): set<nat> {
    set i | 0 <= i < |f| && !f[i].free :: f[i].ptr
  }

  ghost function Spare(f: seq<Page>): set<nat> {
    set i | 0 <= i < |f| && f[i].free :: f[i].ptr
  }

  /** The addresses of the first `n` frames. */
  ghost function FirstN(first: nat, n: nat): set<nat> {
    set i | 0 <= i < n :: first + PAGE * i
  }

  lemma {:induction false} FirstNSize(first: nat, n: nat)
    ensures |FirstN(first, n)| == n
  {
    if n > 0 {
      FirstNSize(first, n - 1);
      assert FirstN(first, n) == FirstN(first, n - 1) + {first + PAGE * (n - 1)};
    }
  }

  lemma SubsetSize(a: set<nat>, b: set<nat>)
    requires a <= b
    ensures |a| <= |b|
  {
    assert b == a + (b - a);
  }

  /** No frame is lost or invented: the frames held and the frames spare always make up the table. */
  lemma Conservation(f: seq<Page>, first: nat)
    requires Layout(f, first)
    ensures |Held(f)| + |Spare(f)| == |f|
  {
    FirstNSize(first, |f|);
    forall a | a in FirstN(first, |f|) ensures a in Held(f) + Spare(f) {
      var i :| 0 <= i < |f| && a == first + PAGE * i;
      assert f[i].ptr == a;
    }
    assert Held(f) + Spare(f) == FirstN(first, |f|);
    assert Held(f) !! Spare(f);
  }

  // ---- one call

  /** Marking one spare frame as used adds exactly that frame to those held. */
  lemma HeldAfterMark(f: seq<Page>, first: nat, k: nat)
    requires Layout(f, first) && k < |f| && f[k].free
    ensures var g := f[k := Page(f[k].ptr, false)];
            && Layout(g, first) && f[k].ptr !in Held(f) && f[k].ptr in Spare(f)
            && Held(g) == Held(f) + {f[k].ptr}
  {
    var a := f[k].ptr;
    var g := f[k := Page(a, false)];
    forall b | b in Held(f) ensures b in Held(g) {
      var i :| 0 <= i < |f| && !f[i].free && f[i].ptr == b;
      assert g[i].ptr == b;
    }
    assert g[k].ptr == a;
    forall b | b in Held(g) ensures b in Held(f) + {a} {
      var i :| 0 <= i < |g| && !g[i].free && g[i].ptr == b;
      assert i != k ==> f[i].ptr == b;
    }
  }

  /** Pigeonhole: if the first k frames are all used, at least k frames are held. */
  lemma UsedBelow(f: seq<Page>, first: nat, k: nat)
    requires Layout(f, first) && k <= |f| && forall i :: 0 <= i < k ==> !f[i].free
    ensures k <= |Held(f)|
  {
    FirstNSize(first, k);
    forall b | b in FirstN(first, k) ensures b in Held(f) {
      var i :| 0 <= i < k && b == first + PAGE * i;
      assert f[i].ptr == b;
    }
    SubsetSize(FirstN(first, k), Held(f));
  }

  /** A frame handed out was spare, is a whole page away from every other frame, is zero, and
      nothing else in memory changed. Its index is at most the number of frames already held. */
  lemma ClaimSpec(m: Machine, first: nat)
    requires Layout(m.frames, first)
    ensures Claim(m) == Panic <==> Spare(m.frames) == {}
    ensures Claim(m).Done? ==>
              var (m', a) := Claim(m).value;
              var k := FirstFree(m.frames, 0);
              && k < |m.frames| && a == first + PAGE * k
              && a > 0 && a % PAGE == 0
              && a in Spare(m.frames) && a !in Held(m.frames)
              && Held(m'.frames) == Held(m.frames) + {a}
              && m'.frames == m.frames[k := Page(a, false)]
              && Layout(m'.frames, first)
              && AllZero(m'.ram, a, a + PAGE)
              && (forall b :: !(a <= b < a + PAGE) ==> Peek(m'.ram, b) == Peek(m.ram, b))
              && k <= |Held(m.frames)|
    ensures !Claim(m).Fault?
  {
    var f := m.frames;
    var k := FirstFree(f, 0);
    if k == |f| {
      assert Spare(f) == {};
    } else {
      var a := f[k].ptr;
      HeldAfterMark(f, first, k);
      FillAll(m.ram, a, a + PAGE, 0);
      UsedBelow(f, first, k);
      hide Held, Spare, Peek;
    }
  }

  lemma HeldAfterRelease(f: seq<Page>, addr: nat)
    ensures Held(Release(f, addr)) == Held(f) - {addr}
  {
    var r := Release(f, addr);
    forall b | b in Held(f) - {addr} ensures b in Held(r) {
      var i :| 0 <= i < |f| && !f[i].free && f[i].ptr == b;
      assert r[i].ptr == b;
    }
    forall b | b in Held(r) ensures b in Held(f) - {addr} {
      var i :| 0 <= i < |r| && !r[i].free && r[i].ptr == b;
      assert f[i].ptr == b;
    }
  }

  lemma SpareAfterRelease(f: seq<Page>, addr: nat)
    requires addr in Held(f)
    ensures Spare(Release(f, addr)) == Spare(f) + {addr}
  {
    var r := Release(f, addr);
    var i :| 0 <= i < |f| && !f[i].free && f[i].ptr == addr;
    assert r[i].ptr == addr && r[i].free;
    forall b | b in Spare(f) ensures b in Spare(r) {
      var j :| 0 <= j < |f| && f[j].free && f[j].ptr == b;
      assert r[j].ptr == b;
    }
    forall b | b in Spare(r) ensures b in Spare(f) + {addr} {
      var j :| 0 <= j < |r| && r[j].free && r[j].ptr == b;
      assert f[j].ptr == b;
    }
  }

  lemma ReleaseUnheld(f: seq<Page>, addr: nat)
    requires addr !in Held(f)
    ensures Release(f, addr) == f
  {
    var r := Release(f, addr);
    forall i | 0 <= i < |f| ensures r[i] == f[i] {
      assert !f[i].free ==> f[i].ptr in Held(f);
    }
  }

  /** Freeing a frame that is held releases that frame and no other; freeing anything else
      changes nothing that is held. */
  lemma ReleaseSpec(f: seq<Page>, first: nat, addr: nat)
    requires Layout(f, first)
    ensures Layout(Release(f, addr), first)
    ensures Held(Release(f, addr)) == Held(f) - {addr}
    ensures addr in Held(f) ==> Spare(Release(f, addr)) == Spare(f) + {addr}
    ensures addr !in Held(f) ==> Release(f, addr) == f
  {
    HeldAfterRelease(f, addr);
    if addr in Held(f) {
      SpareAfterRelease(f, addr);
    } else {
      ReleaseUnheld(f, addr);
    }
    hide Held, Spare, Release;
  }

  // ---- every run

  datatype Op = Alloc | Free(addr: nat)

  /** The allocator together with the addresses its clients hold, kept from what the calls
      returned and were given. */
  datatype World = World(m: Machine, held: set<nat>)

  function Step(w: World, op: Op): Outcome<World> {
    match op
    case Alloc =>
      var (m', a) :- Claim(w.m);
      Done(World(m', w.held + {a}))
    case Free(a) =>
      Done(World(w.m.(frames := Release(w.m.frames, a)), w.held - {a}))
  }

  function Run(w: World, ops: seq<Op>): Outcome<World>
    decreases |ops|
  {
    if ops == [] then Done(w)
    else
      var w' :- Step(w, ops[0]);
      Run(w', ops[1..])
  }

  ghost predicate WorldOk(w: World, first: nat, n: nat) {
    Layout(w.m.frames, first) && |w.m.frames| == n && w.held == Held(w.m.frames)
  }

  /** In every run of `PageAlloc` and `PageFree`, with any arguments, the frames the clients hold
      are exactly the frames marked used. */
  lemma {:induction false} RunKeepsWorld(w: World, first: nat, n: nat, ops: seq<Op>)
    requires WorldOk(w, first, n)
    ensures Run(w, ops).Done? ==> WorldOk(Run(w, ops).value, first, n)
    decreases |ops|
  {
    if ops != [] {
      ClaimSpec(w.m, first);
      if ops[0].Free? {
        ReleaseSpec(w.m.frames, first, ops[0].addr);
      }
      if Step(w, ops[0]).Done? {
        RunKeepsWorld(Step(w, ops[0]).value, first, n, ops[1..]);
      }
    }
  }

  ghost predicate PagesApart(a: nat, b: nat) {
    a + PAGE <= b || b + PAGE <= a
  }

  /** Held frames are aligned, lie after the table and are pairwise disjoint. */
  lemma HeldApart(f: seq<Page>, first: nat, a: nat, b: nat)
    requires Layout(f, first) && a in Held(f) && b in Held(f)
    ensures a % PAGE == 0 && first <= a
    ensures a != b ==> PagesApart(a, b)
  {
    var i :| 0 <= i < |f| && !f[i].free && f[i].ptr == a;
    var j :| 0 <= j < |f| && !f[j].free && f[j].ptr == b;
  }

  /** Safety over every run from boot: after any sequence of calls the held frames are aligned,
      pairwise disjoint and clear of the frame table, and held and spare frames add up to all. */
  lemma EveryRunIsSafe(m: Machine, first: nat, tableEnd: nat, ops: seq<Op>, w: World)
    requires Layout(m.frames, first) && Held(m.frames) == {} && tableEnd <= first
    requires Run(World(m, {}), ops) == Done(w)
    ensures forall a :: a in w.held ==> a % PAGE == 0 && tableEnd <= a
    ensures forall a, b :: a in w.held && b in w.held && a != b ==> PagesApart(a, b)
    ensures |w.held| + |Spare(w.m.frames)| == |m.frames|
  {
    RunKeepsWorld(World(m, {}), first, |m.frames|, ops);
    assert w.held == Held(w.m.frames) && Layout(w.m.frames, first) && |w.m.frames| == |m.frames|;
    hide *;
    Conservation(w.m.frames, first);
    forall a | a in w.held ensures a % PAGE == 0 && tableEnd <= a {
      HeldApart(w.m.frames, first, a, a);
    }
    forall a, b | a in w.held && b in w.held && a != b ensures PagesApart(a, b) {
      HeldApart(w.m.frames, first, a, b);
    }
  }

  /** After any run the next frame handed out is zero and was held by nobody, and the kernel
      panics exactly when every frame is held. */
  lemma NextFrameIsFresh(m: Machine, first: nat, ops: seq<Op>, w: World)
    requires Layout(m.frames, first) && Held(m.frames) == {}
    requires Run(World(m, {}), ops) == Done(w)
    ensures Claim(w.m) == Panic <==> |w.held| == |m.frames|
    ensures Claim(w.m).Done? ==>
              var (m', a) := Claim(w.m).value;
              a !in w.held && AllZero(m'.ram, a, a + PAGE)
  {
    RunKeepsWorld(World(m, {}), first, |m.frames|, ops);
    assert w.held == Held(w.m.frames) && Layout(w.m.frames, first) && |w.m.frames| == |m.frames|;
    hide *;
    Conservation(w.m.frames, first);
    ClaimSpec(w.m, first);
  }

  // ---- containment in the chosen region

  /** Frames the table itself pushes out of the region. */
  function TablePages(n: nat): nat {
    (n + 255) / 256
  }

  function FirstFrame(base: nat, length: nat): nat {
    AlignUp(base + SIZEOF_PAGE * (length / PAGE), PAGE)
  }

  /** The first frame is the first page boundary after the table, wherever the region begins. */
  lemma FirstFrameTight(base: nat, length: nat)
    ensures FirstFrame(base, length) % 0x1000 == 0
    ensures base + 16 * (length / 0x1000) <= FirstFrame(base, length) < base + 16 * (length / 0x1000) + 0x1000
  {
    var x := base + 16 * (length / 0x1000) + 0xFFF;
    assert x == x / 0x1000 * 0x1000 + x % 0x1000;
  }

  /** The k-th frame lies inside the region exactly when k is below n - ceil(n/256): the table
      still lists `length/0x1000` frames although it occupies the first of them itself. */
  lemma FrameInsideRegion(base: nat, length: nat, k: nat)
    requires base % PAGE == 0
    ensures FirstFrame(base, length) + PAGE * k + PAGE <= base + length
            <==> k + TablePages(length / PAGE) < length / PAGE
  {
    var n := length / PAGE;
    var b := base / PAGE;
    assert base == PAGE * b;
    assert (base + SIZEOF_PAGE * n + (PAGE - 1)) / PAGE == b + (SIZEOF_PAGE * n + (PAGE - 1)) / PAGE;
    assert (SIZEOF_PAGE * n + (PAGE - 1)) / PAGE == TablePages(n);
    assert FirstFrame(base, length) == PAGE * (b + TablePages(n));
  }

  /** While fewer than n - ceil(n/256) frames are held, in any run, the frame handed out lies
      inside the region; the pigeonhole on the first-free scan bounds its index. */
  lemma ClaimStaysInRegion(m: Machine, base: nat, length: nat)
    requires base % PAGE == 0 && |m.frames| == length / PAGE
    requires Layout(m.frames, FirstFrame(base, length))
    requires |Held(m.frames)| + TablePages(length / PAGE) < length / PAGE
    ensures Claim(m).Done?
    ensures var a := Claim(m).value.1; base <= a && a + PAGE <= base + length
  {
    var first := FirstFrame(base, length);
    ClaimSpec(m, first);
    Conservation(m.frames, first);
    FrameInsideRegion(base, length, FirstFree(m.frames, 0));
  }

  /** Past that count containment fails for certain: when the first n - ceil(n/256) frames are
      all held, the frame handed out ends beyond the region. */
  lemma ClaimLeavesRegion(m: Machine, base: nat, length: nat)
    requires base % PAGE == 0 && |m.frames| == length / PAGE
    requires Layout(m.frames, FirstFrame(base, length))
    requires forall i :: 0 <= i < |m.frames| - TablePages(|m.frames|) ==> !m.frames[i].free
    requires Claim(m).Done?
    ensures Claim(m).value.1 + PAGE > base + length
  {
    ClaimSpec(m, FirstFrame(base, length));
    FrameInsideRegion(base, length, FirstFree(m.frames, 0));
  }

  // ---- runs without PageFree

  /** The first `u` frames are used and the others free. */
  ghost predicate UsedPrefix(f: seq<Page>, u: nat) {
    u <= |f| && forall i :: 0 <= i < |f| ==> (f[i].free <==> u <= i)
  }

  /** While `PageFree` is not called the used frames stay a prefix, so consecutive calls hand out
      consecutive frames. */
  lemma ClaimExtendsPrefix(m: Machine, first: nat, u: nat)
    requires Layout(m.frames, first) && UsedPrefix(m.frames, u)
    ensures Claim(m).Done? <==> u < |m.frames|
    ensures Claim(m).Done? ==>
              && Claim(m).value.1 == first + PAGE * u
              && UsedPrefix(Claim(m).value.0.frames, u + 1)
  {
    ClaimSpec(m, first);
    if u < |m.frames| {
      assert m.frames[u].free;
      assert FirstFree(m.frames, 0) == u;
    }
  }

  // ---- the allocator object

  /** The index of the entry `InitializeAllocator` chooses: the first among the longest usable. */
  ghost predicate IsLargestUsable(mmap: seq<MapEntry>, k: nat) {
    && k < |mmap| && mmap[k].kind == USABLE && mmap[k].length > 0
    && (forall j :: 0 <= j < |mmap| && mmap[j].kind == USABLE ==> mmap[j].length <= mmap[k].length)
    && (forall j :: 0 <= j < k && mmap[j].kind == USABLE ==> mmap[j].length < mmap[k].length)
  }

  /** The selection loop of `InitializeAllocator`. */
  method LargestUsable(mmap: seq<MapEntry>) returns (largestEntry: MapEntry, ghost k: nat)
    ensures largestEntry.length == 0 <==> forall i :: 0 <= i < |mmap| && mmap[i].kind == USABLE ==> mmap[i].length == 0
    ensures largestEntry.length > 0 ==> IsLargestUsable(mmap, k) && largestEntry == mmap[k]
  {
    var largestEntryLength := 0;
    largestEntry := MapEntry(0, 0, 0);
    k := 0;
    for i := 0 to |mmap|
      invariant largestEntry.length == largestEntryLength
      invariant forall j :: 0 <= j < i && mmap[j].kind == USABLE ==> mmap[j].length <= largestEntryLength
      invariant largestEntryLength > 0 ==>
                  && k < i && largestEntry == mmap[k] && mmap[k].kind == USABLE
                  && forall j :: 0 <= j < k && mmap[j].kind == USABLE ==> mmap[j].length < largestEntryLength
    {
      if mmap[i].kind == USABLE {
        if mmap[i].length > largestEntryLength {
          largestEntryLength := mmap[i].length;
          largestEntry := mmap[i];
          k := i;
        }
      }
    }
  }

  /** The loop of `InitializeAllocator` that fills the frame table. */
  method LayFrames(first: nat, n: nat) returns (list: array<Page>)
    requires first % PAGE == 0 && (n > 0 ==> first > 0)
    ensures fresh(list) && list.Length == n
    ensures Layout(list[..], first) && UsedPrefix(list[..], 0)
  {
    list := new Page[n];
    var nextAddr := first;
    for p := 0 to n
      invariant nextAddr == first + PAGE * p
      invariant forall j :: 0 <= j < p ==> list[j] == Page(first + PAGE * j, true)
    {
      list[p] := Page(nextAddr, true);
      nextAddr := nextAddr + PAGE;
    }
  }

  class FrameAllocator {
    var ram: Memory
    var frameList: array<Page>
    var largestMemSegSize: nat

    constructor (contents: Memory)
      ensures ram == contents && fresh(frameList) && Valid() && State().frames == []
    {
      ram := contents;
      frameList := new Page[0];
      largestMemSegSize := 0;
    }

    ghost predicate Valid()
      reads this
    {
      frameList.Length == largestMemSegSize / PAGE
    }

    /** The table lists the frames after itself, from the start of the given region. */
    ghost predicate LaidOutIn(e: MapEntry)
      reads this, frameList
    {
      && largestMemSegSize == e.length
      && Layout(frameList[..], FirstFrame(e.base, e.length))
      && e.base + SIZEOF_PAGE * frameList.Length <= FirstFrame(e.base, e.length)
    }

    ghost function State(): Machine
      reads this, frameList
    {
      Machine(ram, frameList[..])
    }

    /** `InitializeAllocator`: panics exactly when no usable memory exists; otherwise lays
        `length/0x1000` free frames out after the table of the longest usable region. */
    method Initialize(mmap: seq<MapEntry>) returns (o: Outcome<()>)
      requires forall e :: e in mmap && e.kind == USABLE ==> e.base + 2 * e.length + PAGE <= WORD_LIMIT
      modifies this
      ensures o == Panic <==> forall i :: 0 <= i < |mmap| && mmap[i].kind == USABLE ==> mmap[i].length == 0
      ensures o == Panic ==> unchanged(this)
      ensures !o.Fault?
      ensures o.Done? ==>
                && Valid() && fresh(frameList) && ram == old(ram)
                && UsedPrefix(frameList[..], 0)
                && (exists k: nat :: IsLargestUsable(mmap, k) && LaidOutIn(mmap[k]))
    {
      var largestEntry, k := LargestUsable(mmap);
      if largestEntry.length == 0 {
        return Panic;
      }
      var first := AlignUp(largestEntry.base + SIZEOF_PAGE * (largestEntry.length / PAGE), PAGE);
      frameList := LayFrames(first, largestEntry.length / PAGE);
      largestMemSegSize := largestEntry.length;
      assert IsLargestUsable(mmap, k) && LaidOutIn(mmap[k]);
      return Done(());
    }

    /** `PageAlloc`: the scanning loop computes `Claim`. */
    method PageAlloc() returns (o: Outcome<nat>)
      requires Valid()
      modifies this`ram, frameList
      ensures Valid()
      ensures match Claim(old(State()))
              case Done((m, a)) => o == Done(a) && State() == m
              case _ => o == Panic && State() == old(State())
    {
      var i := 0;
      while i < largestMemSegSize / PAGE
        invariant 0 <= i <= frameList.Length
        invariant forall j :: 0 <= j < i ==> !frameList[j].free
        invariant State() == old(State())
      {
        if frameList[i].free {
          ghost var before := frameList[..];
          assert FirstFree(before, 0) == i by {
            assert before[i].free;
          }
          frameList[i] := Page(frameList[i].ptr, false);
          ram := MemSet(ram, frameList[i].ptr, 0, PAGE);
          assert frameList[..] == before[i := Page(before[i].ptr, false)];
          return Done(frameList[i].ptr);
        }
        i := i + 1;
      }
      assert forall j :: 0 <= j < |frameList[..]| ==> !frameList[..][j].free;
      return Panic;
    }

    /** `PageFree`: the scanning loop computes `Release`. */
    method PageFree(addr: nat)
      requires Valid()
      modifies frameList
      ensures Valid()
      ensures frameList[..] == Release(old(frameList[..]), addr)
    {
      var i := 0;
      while i < largestMemSegSize / PAGE
        invariant 0 <= i <= frameList.Length
        invariant forall j :: 0 <= j < i ==> frameList[j] == Release(old(frameList[..]), addr)[j]
        invariant forall j :: i <= j < frameList.Length ==> frameList[j] == old(frameList[j])
      {
        if frameList[i].ptr == addr {
          frameList[i] := Page(frameList[i].ptr, true);
        }
        i := i + 1;
      }
    }
  }
}
