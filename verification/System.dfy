/** The memory stack as a whole: heap and page tables in one memory, fed by one frame allocator. Each
    leaves the other's bytes alone, so their guarantees hold together in every interleaving. */
module System {
  import opened Ram
  import opened Outcomes
  import opened Frames
  import opened PageFormat
  import opened Paging
  import opened AddressSpaces
  import HeapList
  import opened Arena
  import opened HeapBytes
  import Requests
  import Arith

  /** No table lies in the heap's pages, and the static list head lies in no table. */
  ghost predicate Separate(owner: Owner, head: nat, pool: Pool, h: Arena) {
    forall t :: t in owner ==>
      && (exists i: nat :: i < h.used && t == pool.Frame(i) && i !in h.pages)
      && (head + HeapList.HEADER <= t || t + TABLE <= head)
  }

  ghost predicate SystemOk(k: Kernel, owner: Owner, head: nat, pool: Pool, h: Arena) {
    && KernelOk(k, owner, pool.first)
    && HeapState(k.m, head, pool, h)
    && Separate(owner, head, pool, h)
  }

  /** The system starts well: no address space, an empty heap, and a frame table fresh from
      `InitializeAllocator`. */
  lemma BootIsOk(m: Machine, head: nat, pool: Pool)
    requires Layout(m.frames, pool.first) && |m.frames| == pool.count > 0 && UsedPrefix(m.frames, 0)
    requires pool.Frame(pool.count) <= TABLE_LIMIT
    requires HeapList.HeadOk(head, pool.first, pool.Frame(pool.count)) && HeapList.NextAt(m.ram, head) == 0
    ensures SystemOk(Kernel(m, []), map[], head, pool, Arena([], [], 0, {}))
    ensures Pristine(m.ram, [])
  {
    hide HeapList.NextAt;
    assert Tiled(pool, Arena([], [], 0, {}));
  }

  // ---- heap steps and translations

  /** A heap step changes no byte of any table. */
  lemma HeapKeepsTable(m: Memory, m': Memory, owner: Owner, head: nat, pool: Pool, h: Arena, t: nat, a: int)
    requires Separate(owner, head, pool, h) && Untouched(m, m', head, pool, h) && t in owner && t <= a < t + TABLE
    ensures Peek(m', a) == Peek(m, a)
  {
    hide Peek;
    var i: nat :| i < h.used && t == pool.Frame(i) && i !in h.pages;
    Arith.DivMod(a - pool.first, PAGE, i, a - t);
  }

  lemma HeapKeepsEntries(m: Memory, m': Memory, owner: Owner, head: nat, pool: Pool, h: Arena, t: nat, j: nat)
    requires Separate(owner, head, pool, h) && Untouched(m, m', head, pool, h) && t in owner && j < 512
    ensures Entry(m', t, j) == Entry(m, t, j)
  {
    hide Separate, Untouched, Peek;
    forall a | t + 8 * j <= a < t + 8 * j + 8 ensures Peek(m', a) == Peek(m, a) {
      HeapKeepsTable(m, m', owner, head, pool, h, t, a);
    }
    WordSame(m, m', t + 8 * j);
  }

  /** Frames and roots stay what they were when only frames are added to those held. */
  lemma HeapKeepsSpaces(k: Kernel, owner: Owner, head: nat, pool: Pool, h: Arena, m': Machine)
    requires KernelOk(k, owner, pool.first) && Separate(owner, head, pool, h)
    requires Untouched(k.m.ram, m'.ram, head, pool, h)
    requires Layout(m'.frames, pool.first) && |m'.frames| == |k.m.frames| && Held(k.m.frames) <= Held(m'.frames)
    ensures KernelOk(k.(m := m'), owner, pool.first)
    ensures forall s, v: nat :: 0 <= s < |k.roots| ==> Walk(m'.ram, k.roots[s], v) == Walk(k.m.ram, k.roots[s], v)
  {
    hide Entry, Untouched, Separate, Held, Peek;
    forall t, j: nat | t in owner && j < 512 ensures Entry(m'.ram, t, j) == Entry(k.m.ram, t, j) {
      HeapKeepsEntries(k.m.ram, m'.ram, owner, head, pool, h, t, j);
    }
    assert EntriesOk(m'.ram, owner) by {
      forall t, j | t in owner && 0 <= j < 512 ensures EntryOk(m'.ram, owner, t, j) {
        assert EntryOk(k.m.ram, owner, t, j);
      }
    }
    forall s, v: nat | 0 <= s < |k.roots| ensures Walk(m'.ram, k.roots[s], v) == Walk(k.m.ram, k.roots[s], v) {
      assert IsRoot(owner, k.roots[s]);
      SameTablesHit(k.m.ram, m'.ram, owner, k.roots[s], v, 0);
    }
  }

  /** The frames held form the prefix. */
  lemma PrefixHeld(f: seq<Page>, first: nat, u: nat, f': seq<Page>, u': nat)
    requires Layout(f, first) && Layout(f', first) && |f| == |f'| && UsedPrefix(f, u) && UsedPrefix(f', u') && u <= u'
    ensures Held(f) <= Held(f')
  {
    forall a | a in Held(f) ensures a in Held(f') {
      var i :| 0 <= i < |f| && !f[i].free && f[i].ptr == a;
      assert f'[i].ptr == a && !f'[i].free;
    }
  }

  /** Every `malloc`, `free` and client write leaves every translation of every address space as it
      is, and the page tables intact. */
  lemma HeapStepIsInvisible(k: Kernel, owner: Owner, head: nat, pool: Pool, h: Arena, m': Machine, h': Arena)
    requires SystemOk(k, owner, head, pool, h) && HeapState(m', head, pool, h')
    requires Untouched(k.m.ram, m'.ram, head, pool, h) && Extends(h, h')
    ensures SystemOk(k.(m := m'), owner, head, pool, h')
    ensures forall s, v: nat :: 0 <= s < |k.roots| ==> Walk(m'.ram, k.roots[s], v) == Walk(k.m.ram, k.roots[s], v)
  {
    assert Layout(m'.frames, pool.first) && |m'.frames| == |k.m.frames| && h'.used <= pool.count;
    assert Held(k.m.frames) <= Held(m'.frames) by {
      PrefixHeld(k.m.frames, pool.first, h.used, m'.frames, h'.used);
    }
    hide KernelOk, HeapState, Untouched;
    HeapKeepsSpaces(k, owner, head, pool, h, m');
    assert Separate(owner, head, pool, h') by {
      forall t | t in owner ensures exists i: nat :: i < h'.used && t == pool.Frame(i) && i !in h'.pages {
        var i: nat :| i < h.used && t == pool.Frame(i) && i !in h.pages;
        assert i < h'.used && i !in h'.pages;
      }
    }
  }

  // ---- paging steps and the heap

  /** Paging takes frames in order too. */
  lemma NextLevelPrefix(m: Machine, first: nat, t: nat, i: nat, u: nat) returns (u': nat)
    requires Layout(m.frames, first) && UsedPrefix(m.frames, u) && NextLevel(m, t, i).Done?
    ensures var f := NextLevel(m, t, i).value.0.frames;
            u <= u' && |f| == |m.frames| && Layout(f, first) && UsedPrefix(f, u')
  {
    hide Entry, Claim, Held;
    u' := u;
    if t != 0 && !Entry(m.ram, t, i).present {
      ClaimExtendsPrefix(m, first, u);
      ClaimSpec(m, first);
      u' := u + 1;
    }
  }

  lemma CallPrefix(k: Kernel, first: nat, c: Call, u: nat) returns (u': nat)
    requires Layout(k.m.frames, first) && UsedPrefix(k.m.frames, u) && DoCall(k, c).Done?
    ensures var f := DoCall(k, c).value.m.frames;
            u <= u' && |f| == |k.m.frames| && Layout(f, first) && UsedPrefix(f, u')
  {
    match c
    case NewSpace =>
      hide Claim, Held;
      ClaimExtendsPrefix(k.m, first, u);
      ClaimSpec(k.m, first);
      u' := u + 1;
    case Map(s, virt, phys, size, user) =>
      hide NextLevel, SetLeaf, Index;
      var root := if s < |k.roots| then k.roots[s] else 0;
      var u1 := NextLevelPrefix(k.m, first, root, Index(virt, 0), u);
      var (m1, pdpt) := NextLevel(k.m, root, Index(virt, 0)).value;
      u' := NextLevelPrefix(m1, first, pdpt, Index(virt, 1), u1);
      var (m2, pd) := NextLevel(m1, pdpt, Index(virt, 1)).value;
      if size == Size4K {
        u' := NextLevelPrefix(m2, first, pd, Index(virt, 2), u');
      }
  }

  /** A table that contains a byte of a heap page would be a heap page. */
  lemma TablesClearOfHeap(f: seq<Page>, owner: Owner, f': seq<Page>, owner': Owner, head: nat, pool: Pool, h: Arena, u: nat)
    requires Separate(owner, head, pool, h) && Grows(f, owner, f', owner') && owner'.Keys <= Held(f')
    requires Layout(f, pool.first) && UsedPrefix(f, h.used) && Layout(f', pool.first) && UsedPrefix(f', u)
    requires |f| == |f'| == pool.count && h.used <= u && (forall q :: q in h.pages ==> q < h.used)
    requires HeapList.HeadOk(head, pool.first, pool.Frame(pool.count))
    ensures Separate(owner', head, pool, h.(used := u))
  {
    forall t | t in owner'
      ensures exists i: nat :: i < u && t == pool.Frame(i) && i !in h.pages
      ensures head + HeapList.HEADER <= t || t + TABLE <= head
    {
      var i: nat :| i < |f'| && !f'[i].free && f'[i].ptr == t;
      assert t == pool.Frame(i) && i < u;
      if t in owner {
        var j: nat :| j < h.used && t == pool.Frame(j) && j !in h.pages;
        assert i == j;
      } else {
        assert f[i].ptr == t;
        assert i !in h.pages;
      }
    }
  }

  /** Bytes of the heap's pages, and the list head, lie outside every table. */
  lemma OutsideTables(owner: Owner, head: nat, pool: Pool, h: Arena, a: int)
    requires Separate(owner, head, pool, h)
    requires InPages(pool, h.pages, a) || head <= a < head + HeapList.HEADER
    ensures forall t :: t in owner ==> !(t <= a < t + TABLE)
  {
    forall t | t in owner ensures !(t <= a < t + TABLE) {
      var i: nat :| i < h.used && t == pool.Frame(i) && i !in h.pages;
      if t <= a < t + TABLE {
        Arith.DivMod(a - pool.first, PAGE, i, a - t);
      }
    }
  }

  /** Writing only tables keeps the heap's list and headers. */
  lemma TablesKeepHeap(m: Machine, m': Machine, owner': Owner, head: nat, pool: Pool, h: Arena, u: nat)
    requires HeapState(m, head, pool, h) && h.used <= u <= pool.count
    requires Layout(m'.frames, pool.first) && |m'.frames| == pool.count && UsedPrefix(m'.frames, u)
    requires OnlyTables(m.ram, m'.ram, owner') && Separate(owner', head, pool, h.(used := u))
    ensures HeapState(m', head, pool, h.(used := u))
  {
    UsedGrows(pool, h, u);
    forall a | InPages(pool, h.pages, a) || head <= a < head + HeapList.HEADER
      ensures Peek(m'.ram, a) == Peek(m.ram, a)
    {
      OutsideTables(owner', head, pool, h.(used := u), a);
    }
    hide OnlyTables, Separate, Peek;
    forall i | 0 <= i < |h.free| ensures Same(m.ram, m'.ram, h.free[i].addr, h.free[i].addr + HeapList.HEADER) {
      HeaderInPages(pool, h, h.free, i);
    }
    forall i | 0 <= i < |h.live| ensures Same(m.ram, m'.ram, h.live[i].addr, h.live[i].addr + HeapList.HEADER) {
      HeaderInPages(pool, h, h.live, i);
    }
    hide ArenaOk, InPages;
    HeapList.OtherWrites(m.ram, m'.ram, head, pool.first, pool.Frame(h.used), h.free, h.live);
    WiderPool(m'.ram, head, pool, h, u);
  }

  lemma HeaderInPages(pool: Pool, h: Arena, s: seq<HeapList.Block>, k: nat)
    requires ArenaOk(pool, h) && (s == h.free || s == h.live) && k < |s|
    ensures forall a :: s[k].addr <= a < s[k].addr + HeapList.HEADER ==> InPages(pool, h.pages, a)
  {
    assert HeapList.Inside(s[k], pool.first, pool.Frame(h.used));
    hide ArenaOk, InPages;
    forall a | s[k].addr <= a < s[k].addr + HeapList.HEADER ensures InPages(pool, h.pages, a) {
      BlockInPages(pool, h, s, k, a);
    }
  }

  lemma WiderPool(m: Memory, head: nat, pool: Pool, h: Arena, u: nat)
    requires HeapList.HeapInv(m, head, pool.first, pool.Frame(h.used), h.free, h.live)
    requires h.used <= u <= pool.count && HeapList.HeadOk(head, pool.first, pool.Frame(pool.count))
    ensures HeapList.HeapInv(m, head, pool.first, pool.Frame(u), h.free, h.live)
  {
    hide HeapList.ListOk, HeapList.LiveOk, HeapList.Spread;
  }

  // ---- every interleaving

  /** One step of the system: a paging call, a frame taken for something else (such as a stack), a `malloc` of n bytes
      that returns p, a `free`, or a client's store of one byte. */
  datatype Label = Paging(call: Call) | Frame(a: nat) | Malloc(n: nat, p: nat) | Free(p: nat) | Store(a: nat, v: Byte)

  datatype State = State(k: Kernel, h: Arena)

  /** Every step computes the next machine from the bytes of the last one. The clients free only what they hold and
      store only into payloads they hold, and the leftovers of `malloc` have room for a header. */
  ghost predicate Moves(head: nat, pool: Pool, s: State, move: Label, s': State) {
    match move
    case Paging(c) =>
      DoCall(s.k, c) == Done(s'.k) && s'.h == s.h.(used := FirstFree(s'.k.m.frames, 0))
    case Frame(a) =>
      && Claim(s.k.m) == Done((s'.k.m, a)) && s'.k.roots == s.k.roots
      && s'.h == s.h.(used := s.h.used + 1)
    case Malloc(n, p) =>
      && n <= MAX_REQUEST && CleanSplit(pool, s.h, n) && s'.k.roots == s.k.roots
      && MallocBytes(s.k.m, head, pool, s.h, n) == Done((s'.k.m, s'.h, p))
    case Free(p) =>
      p >= HeapList.HEADER && IsLive(s.h, p) && s' == State(s.k.(m := FreeBytes(s.k.m, head, p)), GiveBack(s.h, p))
    case Store(a, v) =>
      InPayload(s.h, a) && s' == State(s.k.(m := s.k.m.(ram := s.k.m.ram[a := v])), s.h)
  }

  ghost predicate IsRun(head: nat, pool: Pool, states: seq<State>, labels: seq<Label>) {
    && |states| == |labels| + 1
    && forall i :: 0 <= i < |labels| ==> Moves(head, pool, states[i], labels[i], states[i + 1])
  }

  /** The paging calls of a run. */
  ghost function Calls(labels: seq<Label>): seq<Call> {
    if labels == [] then []
    else
      var init := Calls(labels[..|labels| - 1]);
      if labels[|labels| - 1].Paging? then init + [labels[|labels| - 1].call] else init
  }

  // ---- one heap step

  /** What a heap step does to the system, whichever it is. */
  lemma HeapMove(head: nat, pool: Pool, s: State, move: Label, s': State)
    requires HeapState(s.k.m, head, pool, s.h) && !move.Paging? && Moves(head, pool, s, move, s')
    ensures s'.k == s.k.(m := s'.k.m) && HeapState(s'.k.m, head, pool, s'.h)
    ensures Untouched(s.k.m.ram, s'.k.m.ram, head, pool, s.h) && Extends(s.h, s'.h)
    ensures !move.Free? && Pristine(s.k.m.ram, s.h.free) ==> Pristine(s'.k.m.ram, s'.h.free)
    ensures move.Malloc? && Pristine(s.k.m.ram, s.h.free) ==> AllZero(s'.k.m.ram, move.p, move.p + move.n)
  {
    match move
    case Frame(a) =>
      hide HeapState, Untouched, Pristine, AllZero, KeepsPayloads, Claim, Extends, Peek;
      FrameTaken(s.k.m, head, pool, s.h);
    case Malloc(n, p) =>
      hide HeapState, Untouched, Pristine, AllZero, KeepsPayloads, MallocBytes, CleanSplit, Extends;
      MallocBytesOk(s.k.m, head, pool, s.h, n);
    case Free(p) =>
      hide HeapState, Untouched, Pristine, KeepsPayloads, GiveBack, LiveIndex, Extends, FreeBytes;
      FreeBytesOk(s.k.m, head, pool, s.h, p);
    case Store(a, v) =>
      StateNumbers(s.k.m, head, pool, s.h);
      hide HeapState, Untouched, Pristine, KeepsPayloads;
      var k :| 0 <= k < |s.h.live| && s.h.live[k].addr + HeapList.HEADER <= a < s.h.live[k].End();
      PayloadWrites(s.k.m, s'.k.m.ram, head, pool, s.h, k);
  }

  /** A live block stays live until it is freed, and its payload changes only where it is stored to. */
  lemma HeapMoveKeeps(head: nat, pool: Pool, s: State, move: Label, s': State, b: HeapList.Block, a: int)
    requires HeapState(s.k.m, head, pool, s.h) && !move.Paging? && Moves(head, pool, s, move, s')
    requires b in s.h.live && move != Label.Free(b.addr + HeapList.HEADER) && b.addr + HeapList.HEADER <= a < b.End()
    ensures b in s'.h.live
    ensures Peek(s'.k.m.ram, a) == if move.Store? && move.a == a then move.v else Peek(s.k.m.ram, a)
  {
    var i :| 0 <= i < |s.h.live| && s.h.live[i] == b;
    match move
    case Frame(_) =>
      hide HeapState, Untouched, Pristine, AllZero, Claim, Peek;
      FrameTaken(s.k.m, head, pool, s.h);
      assert Same(s.k.m.ram, s'.k.m.ram, s.h.live[i].addr + HeapList.HEADER, s.h.live[i].End());
    case Malloc(n, p) =>
      hide HeapState, Untouched, Pristine, AllZero, MallocBytes, CleanSplit, Peek;
      MallocBytesOk(s.k.m, head, pool, s.h, n);
      assert s'.h.live[i] == b && Same(s.k.m.ram, s'.k.m.ram, s.h.live[i].addr + HeapList.HEADER, s.h.live[i].End());
    case Free(p) =>
      hide HeapState, Untouched, GiveBack, LiveIndex, FreeBytes, Peek;
      FreeBytesOk(s.k.m, head, pool, s.h, p);
      LiveUntilFreed(pool, s.h, Return(p), b);
      assert Same(s.k.m.ram, s'.k.m.ram, s.h.live[i].addr + HeapList.HEADER, s.h.live[i].End());
    case Store(x, v) =>
  }

  lemma HeapOpStep(k0: Kernel, calls: seq<Call>, s: State, owner: Owner, head: nat, pool: Pool, move: Label, s': State)
    requires SystemOk(s.k, owner, head, pool, s.h) && Refines(k0, calls, s.k) && !move.Paging? && Moves(head, pool, s, move, s')
    ensures SystemOk(s'.k, owner, head, pool, s'.h) && Refines(k0, calls, s'.k)
  {
    hide Untouched, Latest, Entry, HeapState, Moves, Pristine, Extends;
    assert KernelOk(s.k, owner, pool.first) && HeapState(s.k.m, head, pool, s.h);
    HeapMove(head, pool, s, move, s');
    HeapStepIsInvisible(s.k, owner, head, pool, s.h, s'.k.m, s'.h);
    forall i, v: nat | 0 <= i < |s.k.roots|
      ensures Meets(k0, calls, i, v, Hit(s'.k.m.ram, s'.k.roots[i], v, 0))
    {
      assert IsRoot(owner, s.k.roots[i]);
      HeapKeepsHits(s.k, owner, head, pool, s.h, s'.k.m.ram, s.k.roots[i], v);
      assert Meets(k0, calls, i, v, Hit(s.k.m.ram, s.k.roots[i], v, 0));
    }
  }

  lemma HeapKeepsHits(k: Kernel, owner: Owner, head: nat, pool: Pool, h: Arena, ram': Memory, r: nat, v: nat)
    requires KernelOk(k, owner, pool.first) && Separate(owner, head, pool, h) && IsRoot(owner, r)
    requires Untouched(k.m.ram, ram', head, pool, h)
    ensures Hit(ram', r, v, 0) == Hit(k.m.ram, r, v, 0)
  {
    hide Entry, Untouched, Separate;
    forall t, j: nat | t in owner && j < 512 ensures Entry(ram', t, j) == Entry(k.m.ram, t, j) {
      HeapKeepsEntries(k.m.ram, ram', owner, head, pool, h, t, j);
    }
    SameTablesHit(k.m.ram, ram', owner, r, v, 0);
  }

  lemma PagingStep(k0: Kernel, calls: seq<Call>, s: State, owner: Owner, head: nat, pool: Pool, c: Call, s': State)
      returns (owner': Owner)
    requires SystemOk(s.k, owner, head, pool, s.h) && Refines(k0, calls, s.k) && Legal(k0, calls + [c])
    requires Moves(head, pool, s, Paging(c), s')
    ensures SystemOk(s'.k, owner', head, pool, s'.h) && Refines(k0, calls + [c], s'.k)
    ensures Pristine(s.k.m.ram, s.h.free) ==> Pristine(s'.k.m.ram, s'.h.free)
    ensures KeepsPayloads(s.k.m.ram, s'.k.m.ram, s.h.live) && s'.h.live == s.h.live
  {
    hide Latest, Entry, Untouched, HeapState, Hit, Pristine, KeepsPayloads;
    StateNumbers(s.k.m, head, pool, s.h);
    StateFrames(s.k.m, head, pool, s.h);
    var u := CallPrefix(s.k, pool.first, c, s.h.used);
    PrefixIsFirstFree(s'.k.m.frames, u);
    if c.NewSpace? {
      NewSpaceAll(k0, calls, s.k, owner, pool.first);
      var a := Claim(s.k.m).value.1;
      owner' := owner[a := Slot(a, 0, 0)];
    } else {
      owner' := MapAll(k0, calls, s.k, owner, pool.first, c);
    }
    TablesClearOfHeap(s.k.m.frames, owner, s'.k.m.frames, owner', head, pool, s.h, u);
    TablesKeepHeap(s.k.m, s'.k.m, owner', head, pool, s.h, u);
    PagingKeepsPayloads(s.k.m, s'.k.m, owner', head, pool, s.h, u);
  }

  lemma PrefixIsFirstFree(f: seq<Page>, u: nat)
    requires UsedPrefix(f, u)
    ensures FirstFree(f, 0) == u
  {
    assert u < |f| ==> f[u].free;
  }

  lemma NewSpaceAll(k0: Kernel, calls: seq<Call>, k: Kernel, owner: Owner, first: nat)
    requires KernelOk(k, owner, first) && Refines(k0, calls, k) && Legal(k0, calls + [NewSpace]) && DoCall(k, NewSpace).Done?
    ensures var k' := DoCall(k, NewSpace).value;
            var a := Claim(k.m).value.1;
            var owner' := owner[a := Slot(a, 0, 0)];
            && KernelOk(k', owner', first) && Refines(k0, calls + [NewSpace], k')
            && Grows(k.m.frames, owner, k'.m.frames, owner') && OnlyTables(k.m.ram, k'.m.ram, owner')
            && owner'.Keys <= Held(k'.m.frames)
  {
    assert (calls + [NewSpace])[..|calls|] == calls;
    NewSpaceStep(k0, calls, k, owner, first);
    NewRootTables(k.m, owner, first);
    hide Latest, Entry, Hit, Refines, EntriesOk;
    ClaimSpec(k.m, first);
    assert Claim(k.m).value.1 in owner[Claim(k.m).value.1 := Slot(Claim(k.m).value.1, 0, 0)];
  }

  lemma MapAll(k0: Kernel, calls: seq<Call>, k: Kernel, owner: Owner, first: nat, c: Call) returns (owner': Owner)
    requires KernelOk(k, owner, first) && Refines(k0, calls, k) && Legal(k0, calls + [c]) && c.Map? && DoCall(k, c).Done?
    ensures var k' := DoCall(k, c).value;
            && KernelOk(k', owner', first) && Refines(k0, calls + [c], k')
            && Grows(k.m.frames, owner, k'.m.frames, owner') && OnlyTables(k.m.ram, k'.m.ram, owner')
            && owner'.Keys <= Held(k'.m.frames)
  {
    hide Entry, Hit, MapPage, Latest, EntriesOk, Held;
    NotUnderLarge(k0, calls, k, c);
    owner' := MapPageOk(k.m, owner, first, k.roots[c.space], c.virt, c.phys, c.size, c.user);
    RemapMeets(k0, calls, k, owner, first, c, DoCall(k, c).value.m);
    assert forall s :: 0 <= s < |k.roots| ==> IsRoot(owner, k.roots[s]);
  }

  lemma {:induction false} LegalPrefix(k: Kernel, labels: seq<Label>)
    requires labels != [] && Legal(k, Calls(labels))
    ensures Legal(k, Calls(labels[..|labels| - 1]))
  {
    var init := labels[..|labels| - 1];
    if labels[|labels| - 1].Paging? {
      assert Calls(labels)[..|Calls(init)|] == Calls(init);
    }
  }

  /** Over every interleaving of paging calls and heap operations that share the memory and the frame
      allocator, all invariants hold together and every address of every space is translated by the
      paging calls alone. */
  lemma {:induction false} EveryInterleaving(head: nat, pool: Pool, states: seq<State>, labels: seq<Label>, owner: Owner)
      returns (owner': Owner)
    requires IsRun(head, pool, states, labels)
    requires SystemOk(states[0].k, owner, head, pool, states[0].h) && Legal(states[0].k, Calls(labels))
    ensures var s' := states[|labels|];
            SystemOk(s'.k, owner', head, pool, s'.h) && Refines(states[0].k, Calls(labels), s'.k)
    decreases |labels|
  {
    hide SystemOk, Moves, Legal, Refines;
    owner' := owner;
    var n := |labels|;
    if n == 0 {
      RefinesSelf(states[0].k);
    } else {
      var init, before := labels[..n - 1], states[..n];
      LegalPrefix(states[0].k, labels);
      assert forall i :: 0 <= i < n - 1 ==> init[i] == labels[i];
      assert IsRun(head, pool, before, init);
      var owner1 := EveryInterleaving(head, pool, before, init, owner);
      assert Moves(head, pool, states[n - 1], labels[n - 1], states[n - 1 + 1]);
      if labels[n - 1].Paging? {
        owner' := PagingStep(states[0].k, Calls(init), states[n - 1], owner1, head, pool, labels[n - 1].call, states[n]);
      } else {
        HeapOpStep(states[0].k, Calls(init), states[n - 1], owner1, head, pool, labels[n - 1], states[n]);
        owner' := owner1;
      }
    }
  }

  /** In particular no byte of the heap is ever lost: after every interleaving the blocks are disjoint, tile exactly
      the pages put into the heap, and their sizes add up to them. */
  lemma HeapIsConserved(head: nat, pool: Pool, states: seq<State>, labels: seq<Label>, owner: Owner)
    requires IsRun(head, pool, states, labels)
    requires SystemOk(states[0].k, owner, head, pool, states[0].h) && Legal(states[0].k, Calls(labels))
    ensures var h := states[|labels|].h;
            && HeapList.Spread(h.free, h.live) && Tiled(pool, h)
            && Sum(h.free) + Sum(h.live) == PAGE * |h.pages|
  {
    hide SystemOk, Moves, Legal, Refines, Tiled, Sum, HeapList.Spread;
    var owner' := EveryInterleaving(head, pool, states, labels, owner);
    SystemHeap(states[|labels|], owner', head, pool);
  }

  // ---- why fresh blocks are zero

  /** A paging step leaves the payloads of all blocks alone. */
  lemma PagingKeepsPayloads(m: Machine, m': Machine, owner': Owner, head: nat, pool: Pool, h: Arena, u: nat)
    requires HeapState(m, head, pool, h) && OnlyTables(m.ram, m'.ram, owner') && Separate(owner', head, pool, h.(used := u))
    ensures KeepsPayloads(m.ram, m'.ram, h.live)
    ensures Pristine(m.ram, h.free) ==> Pristine(m'.ram, h.free)
  {
    hide OnlyTables, Separate, HeapList.HeapInv, Peek, InPages, ArenaOk;
    forall s: seq<HeapList.Block>, i | (s == h.free || s == h.live) && 0 <= i < |s|
      ensures Same(m.ram, m'.ram, s[i].addr + HeapList.HEADER, s[i].End())
    {
      forall a | s[i].addr + HeapList.HEADER <= a < s[i].End() ensures Peek(m'.ram, a) == Peek(m.ram, a) {
        BlockInPages(pool, h, s, i, a);
        SameOutside(m.ram, m'.ram, owner', head, pool, h.(used := u), a);
      }
    }
    if Pristine(m.ram, h.free) {
      forall i | 0 <= i < |h.free| ensures AllZero(m'.ram, h.free[i].addr + HeapList.HEADER, h.free[i].End()) {
        assert AllZero(m.ram, h.free[i].addr + HeapList.HEADER, h.free[i].End());
        assert Same(m.ram, m'.ram, h.free[i].addr + HeapList.HEADER, h.free[i].End());
      }
    }
  }

  lemma SameOutside(m: Memory, m': Memory, owner: Owner, head: nat, pool: Pool, h: Arena, a: int)
    requires OnlyTables(m, m', owner) && Separate(owner, head, pool, h) && InPages(pool, h.pages, a)
    ensures Peek(m', a) == Peek(m, a)
  {
    hide Separate;
    OutsideTables(owner, head, pool, h, a);
  }

  ghost predicate NoFree(labels: seq<Label>) {
    forall i :: 0 <= i < |labels| ==> !labels[i].Free?
  }

  /** In every interleaving without a `free`, starting with zero payloads, the payload of every free block
      stays zero. */
  lemma {:induction false} PristineWithoutFree(head: nat, pool: Pool, states: seq<State>, labels: seq<Label>, owner: Owner)
    requires IsRun(head, pool, states, labels) && NoFree(labels)
    requires SystemOk(states[0].k, owner, head, pool, states[0].h) && Legal(states[0].k, Calls(labels))
    requires Pristine(states[0].k.m.ram, states[0].h.free)
    ensures Pristine(states[|labels|].k.m.ram, states[|labels|].h.free)
    decreases |labels|
  {
    hide SystemOk, Moves, Legal, Refines, Pristine;
    var n := |labels|;
    if n > 0 {
      var init, before := labels[..n - 1], states[..n];
      RunPrefix(head, pool, states, labels, n - 1);
      LegalPrefix(states[0].k, labels);
      PristineWithoutFree(head, pool, before, init, owner);
      var owner1 := EveryInterleaving(head, pool, before, init, owner);
      assert Moves(head, pool, states[n - 1], labels[n - 1], states[n - 1 + 1]);
      if labels[n - 1].Paging? {
        var owner' := PagingStep(states[0].k, Calls(init), states[n - 1], owner1, head, pool, labels[n - 1].call, states[n]);
      } else {
        SystemHeap(states[n - 1], owner1, head, pool);
        HeapMove(head, pool, states[n - 1], labels[n - 1], states[n]);
      }
    }
  }

  lemma SystemHeap(s: State, owner: Owner, head: nat, pool: Pool)
    requires SystemOk(s.k, owner, head, pool, s.h)
    ensures HeapState(s.k.m, head, pool, s.h) && ArenaOk(pool, s.h)
  {
    StateFrames(s.k.m, head, pool, s.h);
    hide HeapState;
  }

  /** The beginning of a run is a run. */
  lemma RunPrefix(head: nat, pool: Pool, states: seq<State>, labels: seq<Label>, n: nat)
    requires IsRun(head, pool, states, labels) && n <= |labels|
    ensures IsRun(head, pool, states[..n + 1], labels[..n])
  {
    hide Moves;
  }

  lemma {:induction false} LegalUpTo(k: Kernel, labels: seq<Label>, n: nat)
    requires n <= |labels| && Legal(k, Calls(labels))
    ensures Legal(k, Calls(labels[..n]))
    decreases |labels|
  {
    hide Legal;
    if n == |labels| {
      assert labels[..n] == labels;
    } else {
      LegalPrefix(k, labels);
      LegalUpTo(k, labels[..|labels| - 1], n);
      assert labels[..|labels| - 1][..n] == labels[..n];
    }
  }

  /** So in every interleaving without a `free`, every block that `malloc` returns is zero. */
  lemma MallocIsZero(head: nat, pool: Pool, states: seq<State>, labels: seq<Label>, owner: Owner, i: nat)
    requires IsRun(head, pool, states, labels) && i < |labels| && labels[i].Malloc? && NoFree(labels[..i])
    requires SystemOk(states[0].k, owner, head, pool, states[0].h) && Legal(states[0].k, Calls(labels))
    requires Pristine(states[0].k.m.ram, states[0].h.free)
    ensures AllZero(states[i + 1].k.m.ram, labels[i].p, labels[i].p + labels[i].n)
  {
    hide SystemOk, Moves, Legal, Refines, Pristine, AllZero;
    RunPrefix(head, pool, states, labels, i);
    LegalUpTo(states[0].k, labels, i);
    PristineWithoutFree(head, pool, states[..i + 1], labels[..i], owner);
    var owner1 := EveryInterleaving(head, pool, states[..i + 1], labels[..i], owner);
    SystemHeap(states[i], owner1, head, pool);
    assert Moves(head, pool, states[i], labels[i], states[i + 1]);
    HeapMove(head, pool, states[i], labels[i], states[i + 1]);
  }

  // ---- what a client finds in its block

  /** The byte last stored to an address, or what was there before. */
  ghost function Stored(labels: seq<Label>, a: int, before: Byte): Byte {
    if labels == [] then before
    else
      var last := labels[|labels| - 1];
      if last.Store? && last.a == a then last.v else Stored(labels[..|labels| - 1], a, before)
  }

  /** One step of either kind keeps a live block that is not freed, and its bytes. */
  lemma StepKeeps(k0: Kernel, calls: seq<Call>, s: State, owner: Owner, head: nat, pool: Pool, move: Label, s': State,
                  b: HeapList.Block, a: int)
    requires SystemOk(s.k, owner, head, pool, s.h) && Refines(k0, calls, s.k) && Moves(head, pool, s, move, s')
    requires move.Paging? ==> Legal(k0, calls + [move.call])
    requires b in s.h.live && move != Label.Free(b.addr + HeapList.HEADER) && b.addr + HeapList.HEADER <= a < b.End()
    ensures b in s'.h.live
    ensures Peek(s'.k.m.ram, a) == if move.Store? && move.a == a then move.v else Peek(s.k.m.ram, a)
  {
    hide SystemOk, Legal, Refines, Moves, Peek, Pristine;
    if move.Paging? {
      var owner' := PagingStep(k0, calls, s, owner, head, pool, move.call, s');
      var i :| 0 <= i < |s.h.live| && s.h.live[i] == b;
      assert Same(s.k.m.ram, s'.k.m.ram, s.h.live[i].addr + HeapList.HEADER, s.h.live[i].End());
    } else {
      SystemHeap(s, owner, head, pool);
      HeapMoveKeeps(head, pool, s, move, s', b, a);
    }
  }

  /** In every interleaving, whatever the heap and the page tables do in between: a block that is live at step i and
      not freed since is still live, and each byte of its payload is the last one stored there. */
  lemma {:induction false} PayloadIsKept(head: nat, pool: Pool, states: seq<State>, labels: seq<Label>, owner: Owner,
                                         i: nat, b: HeapList.Block, a: int)
    requires IsRun(head, pool, states, labels) && i <= |labels|
    requires SystemOk(states[0].k, owner, head, pool, states[0].h) && Legal(states[0].k, Calls(labels))
    requires b in states[i].h.live && Label.Free(b.addr + HeapList.HEADER) !in labels[i..]
    requires b.addr + HeapList.HEADER <= a < b.End()
    ensures b in states[|labels|].h.live
    ensures Peek(states[|labels|].k.m.ram, a) == Stored(labels[i..], a, Peek(states[i].k.m.ram, a))
    decreases |labels|
  {
    hide SystemOk, Moves, Legal, Refines, Peek;
    var n := |labels|;
    if i < n {
      var init, before := labels[..n - 1], states[..n];
      RunPrefix(head, pool, states, labels, n - 1);
      LegalPrefix(states[0].k, labels);
      assert labels[i..][..n - 1 - i] == init[i..];
      assert labels[i..][n - 1 - i] == labels[n - 1];
      PayloadIsKept(head, pool, before, init, owner, i, b, a);
      var owner1 := EveryInterleaving(head, pool, before, init, owner);
      assert Moves(head, pool, states[n - 1], labels[n - 1], states[n - 1 + 1]);
      StepKeeps(states[0].k, Calls(init), states[n - 1], owner1, head, pool, labels[n - 1], states[n], b, a);
    }
  }

  /** The block a `malloc` step adds. */
  lemma MallocAdds(head: nat, pool: Pool, s: State, owner: Owner, n: nat, p: nat, s': State)
    requires SystemOk(s.k, owner, head, pool, s.h) && Moves(head, pool, s, Malloc(n, p), s')
    ensures p >= HeapList.HEADER && HeapList.Block(p - HeapList.HEADER, n + HeapList.HEADER) in s'.h.live
  {
    hide SystemOk, HeapState, Pristine, Untouched, MallocBytes, CleanSplit, Progress, ArenaOk, AllZero;
    SystemHeap(s, owner, head, pool);
    MallocBytesOk(s.k.m, head, pool, s.h, n);
  }

  /** In every interleaving, if step i returned p for n bytes and p was not freed since, then p is live, the size in
      front of it is still n + 16, and `free` would return precisely that extent. */
  lemma FreeReturnsWhatMallocGave(head: nat, pool: Pool, states: seq<State>, labels: seq<Label>, owner: Owner, i: nat)
    requires IsRun(head, pool, states, labels) && i < |labels| && labels[i].Malloc?
    requires SystemOk(states[0].k, owner, head, pool, states[0].h) && Legal(states[0].k, Calls(labels))
    requires Label.Free(labels[i].p) !in labels[i + 1..]
    ensures var s := states[|labels|];
            var n, p := labels[i].n, labels[i].p;
            && p >= HeapList.HEADER && IsLive(s.h, p)
            && HeapList.SizeAt(s.k.m.ram, p - HeapList.HEADER) == n + HeapList.HEADER
            && GiveBack(s.h, p).free == [HeapList.Block(p - HeapList.HEADER, n + HeapList.HEADER)] + s.h.free
  {
    hide SystemOk, Moves, Legal, Refines, Peek, HeapList.SizeAt, ArenaOk, HeapState, GiveBack, LiveIndex, FreeBytes, Untouched;
    var n, p := labels[i].n, labels[i].p;
    RunPrefix(head, pool, states, labels, i);
    LegalUpTo(states[0].k, labels, i);
    var owner1 := EveryInterleaving(head, pool, states[..i + 1], labels[..i], owner);
    assert Moves(head, pool, states[i], labels[i], states[i + 1]);
    MallocAdds(head, pool, states[i], owner1, n, p, states[i + 1]);
    var b := HeapList.Block(p - HeapList.HEADER, n + HeapList.HEADER);
    var owner' := EveryInterleaving(head, pool, states, labels, owner);
    LiveLater(head, pool, states, labels, owner, i + 1, b);
    SystemHeap(states[|labels|], owner', head, pool);
    LiveIndexOf(pool, states[|labels|].h, b);
    FreeBytesOk(states[|labels|].k.m, head, pool, states[|labels|].h, p);
  }

  /** The same for the block alone, whose payload may be empty. */
  lemma {:induction false} LiveLater(head: nat, pool: Pool, states: seq<State>, labels: seq<Label>, owner: Owner,
                                     i: nat, b: HeapList.Block)
    requires IsRun(head, pool, states, labels) && i <= |labels|
    requires SystemOk(states[0].k, owner, head, pool, states[0].h) && Legal(states[0].k, Calls(labels))
    requires b in states[i].h.live && Label.Free(b.addr + HeapList.HEADER) !in labels[i..]
    ensures b in states[|labels|].h.live
    decreases |labels|
  {
    hide SystemOk, Legal, Refines;
    var n := |labels|;
    if i < n {
      RunPrefix(head, pool, states, labels, n - 1);
      LegalPrefix(states[0].k, labels);
      assert labels[i..][..n - 1 - i] == labels[..n - 1][i..] && labels[i..][n - 1 - i] == labels[n - 1];
      LiveLater(head, pool, states[..n], labels[..n - 1], owner, i, b);
      assert Moves(head, pool, states[n - 1], labels[n - 1], states[n - 1 + 1]);
      StepKeepsLive(head, pool, states[n - 1], labels[n - 1], states[n], b);
    }
  }

  lemma StepKeepsLive(head: nat, pool: Pool, s: State, move: Label, s': State, b: HeapList.Block)
    requires Moves(head, pool, s, move, s') && b in s.h.live && move != Label.Free(b.addr + HeapList.HEADER)
    ensures b in s'.h.live
  {
    match move
    case Malloc(n, p) =>
      hide MallocBytes, CleanSplit, Allot;
      LiveUntilFreed(pool, s.h, Request(n), b);
    case Free(p) =>
      hide GiveBack;
      LiveUntilFreed(pool, s.h, Return(p), b);
    case _ =>
  }

  /** Where `struct ProcessFrame` keeps its fields: 224 bytes, the packed registers right after the pid and
      the 32-byte name. */
  const FRAME_SIZE: nat := Requests.PROCESS_FRAME
  const REGISTERS_AT: nat := 33
  const INVALID_AT: nat := 208

  /** The i-th saved register of a frame in memory, and its invalid flag. */
  function RegisterAt(m: Memory, frame: nat, i: nat): nat {
    Word(m, frame + REGISTERS_AT + 8 * i)
  }

  /** A frame of zeros has every register zero and is not invalid. */
  lemma FreshFrameIsZero(m: Memory, frame: nat, i: nat)
    requires AllZero(m, frame, frame + FRAME_SIZE) && i < 20
    ensures RegisterAt(m, frame, i) == 0 && Peek(m, frame + INVALID_AT) == 0
  {
    LoadZero(m, frame + REGISTERS_AT + 8 * i, frame + REGISTERS_AT + 8 * i + 8);
  }

  lemma {:induction false} NothingStored(labels: seq<Label>, a: nat, before: Byte)
    requires forall v: Byte :: Store(a, v) !in labels
    ensures Stored(labels, a, before) == before
    decreases |labels|
  {
    if labels != [] {
      var last := labels[|labels| - 1];
      assert last in labels && (last.Store? ==> last == Store(last.a, last.v));
      NothingStored(labels[..|labels| - 1], a, before);
    }
  }

  /** A task frame that `malloc` returns in a run without `free` has every register zero and is not invalid until its
      owner stores to it, although `IntAddTask` never clears it and whatever address spaces are built meanwhile. */
  lemma NewFrameStaysZero(head: nat, pool: Pool, states: seq<State>, labels: seq<Label>, owner: Owner, i: nat, r: nat)
    requires IsRun(head, pool, states, labels) && i < |labels| && labels[i].Malloc? && labels[i].n == FRAME_SIZE
    requires NoFree(labels) && r < 20
    requires SystemOk(states[0].k, owner, head, pool, states[0].h) && Legal(states[0].k, Calls(labels))
    requires Pristine(states[0].k.m.ram, states[0].h.free)
    requires forall a: nat, v: Byte :: labels[i].p <= a < labels[i].p + FRAME_SIZE ==> Store(a, v) !in labels[i + 1..]
    ensures var ram := states[|labels|].k.m.ram;
            RegisterAt(ram, labels[i].p, r) == 0 && Peek(ram, labels[i].p + INVALID_AT) == 0
  {
    hide SystemOk, Moves, Legal, Refines, Peek, Pristine, RegisterAt;
    var p := labels[i].p;
    var ram := states[|labels|].k.m.ram;
    RunPrefix(head, pool, states, labels, i);
    LegalUpTo(states[0].k, labels, i);
    var owner1 := EveryInterleaving(head, pool, states[..i + 1], labels[..i], owner);
    assert Moves(head, pool, states[i], labels[i], states[i + 1]);
    MallocAdds(head, pool, states[i], owner1, FRAME_SIZE, p, states[i + 1]);
    MallocIsZero(head, pool, states, labels, owner, i);
    forall a: int | p <= a < p + FRAME_SIZE ensures Peek(ram, a) == 0 {
      PayloadIsKept(head, pool, states, labels, owner, i + 1, HeapList.Block(p - HeapList.HEADER, FRAME_SIZE + HeapList.HEADER), a);
      NothingStored(labels[i + 1..], a, Peek(states[i + 1].k.m.ram, a));
    }
    FreshFrameIsZero(ram, p, r);
  }

  lemma RefinesSelf(k: Kernel)
    ensures Refines(k, [], k)
  {
    hide Hit;
  }
}
