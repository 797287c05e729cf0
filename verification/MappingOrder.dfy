/** When tables are lost, in terms of the calls alone: a 2 MiB mapping covers a table of small pages exactly when a 4 KiB
    page of the same region was mapped before in the same space (src/mm/paging/paging.c). */
module MappingOrder {
  import opened Ram
  import opened Outcomes
  import opened Frames
  import opened PageFormat
  import opened Paging
  import opened AddressSpaces
  import opened TableTree

  /** Some call maps a 4 KiB page of the 2 MiB region of the address in the space. */
  predicate SmallIn(calls: seq<Call>, s: nat, v: nat)
    decreases |calls|
  {
    calls != [] &&
      var c := calls[|calls| - 1];
      (c.Map? && c.size == Size4K && c.space == s && Region(v, 3) == Region(c.virt, 3)) || SmallIn(calls[..|calls| - 1], s, v)
  }

  /** No 2 MiB mapping comes after a 4 KiB mapping in the same region of the same space, nor over a table of small pages
      that was there before the run. */
  ghost predicate SmallLast(k: Kernel, calls: seq<Call>)
    decreases |calls|
  {
    calls != [] ==>
      var init, c := calls[..|calls| - 1], calls[|calls| - 1];
      && SmallLast(k, init)
      && (c.Map? && c.size == Size2M ==>
            !SmallIn(init, c.space, c.virt) && !(c.space < |k.roots| && Covers(k.m.ram, k.roots[c.space], c.virt)))
  }

  // ---- paths and regions

  lemma {:induction false} PathIsRegion(v: nat, d: nat)
    requires d <= 3
    ensures PathNumber(Path(v, d)) == Region(v, d)
    decreases d
  {
    if d > 0 {
      PathIsRegion(v, d - 1);
      RegionStep(v, d - 1);
      assert Path(v, d)[..d - 1] == Path(v, d - 1);
    }
  }

  lemma {:induction false} SamePath(v: nat, u: nat, d: nat)
    requires d <= 3 && Region(v, 3) == Region(u, 3)
    ensures Path(v, d) == Path(u, d)
    decreases d
  {
    if d > 0 {
      SamePath(v, u, d - 1);
      SameRegionAbove(v, u, d - 1, 3);
    }
  }

  /** A walk that ends at a 4 KiB leaf went through three links. */
  lemma DeepWalkCovers(m: Machine, owner: Owner, first: nat, root: nat, v: nat)
    requires TablesOk(m, owner, first) && IsRoot(owner, root)
    requires Hit(m.ram, root, v, 0).Leaf? && Hit(m.ram, root, v, 0).depth == 3
    ensures Covers(m.ram, root, v)
  {
    hide Entry;
    var i0, i1, i2 := Index(v, 0), Index(v, 1), Index(v, 2);
    assert EntryOk(m.ram, owner, root, i0);
    var pdpt := Entry(m.ram, root, i0).frame * TABLE;
    assert Hit(m.ram, root, v, 0) == Hit(m.ram, pdpt, v, 1);
    assert EntryOk(m.ram, owner, pdpt, i1);
    var pd := Entry(m.ram, pdpt, i1).frame * TABLE;
    assert Hit(m.ram, pdpt, v, 1) == Hit(m.ram, pd, v, 2);
    assert EntryOk(m.ram, owner, pd, i2);
    assert Path(v, 1) == [] + [i0] && Path(v, 2) == Path(v, 1) + [i1] && Path(v, 3) == Path(v, 2) + [i2];
    FollowOne(m.ram, root, [], i0);
    FollowOne(m.ram, root, Path(v, 1), i1);
    FollowOne(m.ram, root, Path(v, 2), i2);
  }

  // ---- one call

  ghost predicate CallFine(k: Kernel, c: Call) {
    c.Map? ==>
      && c.space < |k.roots|
      && (c.size == Size4K ==> !BigLeaf(k.m.ram, k.roots[c.space], c.virt))
      && (c.size == Size2M ==> !Covers(k.m.ram, k.roots[c.space], c.virt))
  }

  /** A table of small pages stays where it is. */
  lemma CoversKept(k: Kernel, owner: Owner, first: nat, c: Call, s: nat, v: nat)
    requires KernelOk(k, owner, first) && DoCall(k, c).Done? && CallFine(k, c)
    requires s < |k.roots| && Covers(k.m.ram, k.roots[s], v)
    ensures var k' := DoCall(k, c).value; s < |k'.roots| && Covers(k'.m.ram, k'.roots[s], v)
  {
    hide Entry, Follow, Held, BigLeaf, TablesOk, Hit;
    var k' := DoCall(k, c).value;
    var path := Path(v, 3);
    var table := Follow(k.m.ram, k.roots[s], path);
    assert AreRoots(owner, k.roots) && IsRoot(owner, k.roots[s]);
    FollowSlot(k.m, owner, first, k.roots[s], path);
    TablesHeld(k.m, owner, first);
    var base := Held(k.m.frames) - {table};
    ReachedBy(k.m.ram, k.roots, s, path);
    assert AllReachable(k.m, k.roots, base);
    hide Covers;
    CallReaches(k, owner, first, c, base);
    var owner' := OwnerLater(k, owner, first, c);
    hide KernelOk, DoCall;
    assert Reachable(k'.m.ram, k'.roots, table);
    var s': nat, path': seq<nat> :| s' < |k'.roots| && |path'| <= 3 && Follow(k'.m.ram, k'.roots[s'], path') == table;
    SameTablePath(k'.m, owner', first, k'.roots[s'], path', table, k.roots[s], path);
    assert k'.roots[s] == k.roots[s];
    FollowedCovers(k'.m.ram, k'.roots[s], v);
  }

  lemma FollowedCovers(ram: Memory, root: nat, v: nat)
    ensures Covers(ram, root, v) <==> Follow(ram, root, Path(v, 3)) != 0
  {
    hide Follow;
  }

  /** A path to a table whose place is known is the one to that place. */
  lemma SameTablePath(m: Machine, owner: Owner, first: nat, r: nat, p: seq<nat>, table: nat, root: nat, path: seq<nat>)
    requires TablesOk(m, owner, first) && IsRoot(owner, r) && |p| <= 3 && |path| == 3 && Follow(m.ram, r, p) == table
    requires table > 0 && table in owner && owner[table] == Slot(root, 3, PathNumber(path))
    requires forall i :: 0 <= i < 3 ==> path[i] < 512
    ensures r == root && p == path
  {
    hide Follow, TablesOk, PathNumber;
    FollowSlot(m, owner, first, r, p);
    PathNumberUnique(p, path);
  }

  /** The owners after a call. */
  lemma OwnerLater(k: Kernel, owner: Owner, first: nat, c: Call) returns (owner': Owner)
    requires KernelOk(k, owner, first) && DoCall(k, c).Done? && CallFine(k, c)
    ensures var k' := DoCall(k, c).value;
            && TablesOk(k'.m, owner', first) && AreRoots(owner', k'.roots) && k.roots <= k'.roots
            && (forall t :: t in owner ==> t in owner' && owner'[t] == owner[t])
            && Held(k.m.frames) <= Held(k'.m.frames)
  {
    hide Entry, Held, MapPage, BigLeaf, Covers, EntriesOk, Hit;
    assert AreRoots(owner, k.roots);
    if c.Map? {
      owner' := MapPageOk(k.m, owner, first, k.roots[c.space], c.virt, c.phys, c.size, c.user);
      RootsKept(k.m.frames, owner, DoCall(k, c).value.m.frames, owner', k.roots);
    } else {
      NewRootTables(k.m, owner, first);
      var a := Claim(k.m).value.1;
      owner' := owner[a := Slot(a, 0, 0)];
      RootsKept(k.m.frames, owner, DoCall(k, c).value.m.frames, owner', k.roots);
    }
  }

  /** Whether the call maps a 4 KiB page of the region of the address in the space. */
  predicate MapsSmall(c: Call, s: nat, v: nat) {
    c.Map? && c.size == Size4K && c.space == s && Region(v, 3) == Region(c.virt, 3)
  }

  lemma NewSpaceCovers(k: Kernel, owner: Owner, first: nat, s: nat, v: nat)
    requires KernelOk(k, owner, first) && DoCall(k, NewSpace).Done? && s <= |k.roots|
    ensures var k' := DoCall(k, NewSpace).value;
            && |k'.roots| == |k.roots| + 1
            && (Covers(k'.m.ram, k'.roots[s], v) <==> s < |k.roots| && Covers(k.m.ram, k.roots[s], v))
  {
    hide Entry, Follow, Claim, TablesOk;
    var (m', r) := Claim(k.m).value;
    if s < |k.roots| {
      forall t: nat, j: nat | t in owner && j < 512 ensures Entry(m'.ram, t, j) == Entry(k.m.ram, t, j) {
        ClaimKeepsTables(k.m, owner, first, t, j);
      }
      assert IsRoot(owner, k.roots[s]);
      FollowSame(k.m, m'.ram, owner, first, k.roots[s], Path(v, 3));
    } else {
      forall j: nat | j < 512 ensures Entry(m'.ram, r, j) == EMPTY {
        ClaimKeepsTables(k.m, owner, first, r, j);
      }
      FollowEmpty(m'.ram, r, Path(v, 3));
    }
  }

  /** A table of small pages that is there after a mapping was there before, or the mapping is one of a small page there. */
  lemma MapCoversBefore(k: Kernel, owner: Owner, first: nat, c: Call, s: nat, v: nat)
    requires KernelOk(k, owner, first) && DoCall(k, c).Done? && CallFine(k, c) && c.Map? && s < |k.roots|
    requires Covers(DoCall(k, c).value.m.ram, k.roots[s], v)
    ensures Covers(k.m.ram, k.roots[s], v) || MapsSmall(c, s, v)
  {
    hide Entry, Held, MapPage, BigLeaf, EntriesOk, Hit, Follow, Region, PathNumber;
    MapShrinks(k.m, owner, first, k.roots[c.space], c.virt, c.phys, c.size, c.user);
    PathIsRegion(v, 3);
    assert IsRoot(owner, k.roots[s]);
    var path := Path(v, 3);
    var f, g := Follow(k.m.ram, k.roots[s], path), Follow(DoCall(k, c).value.m.ram, k.roots[s], path);
    assert OldOrTowards(k.m, f, g, k.roots[s], path, k.roots[c.space], c.virt, LeafDepth(c.size));
  }

  /** Mapping a small page leaves a table of small pages for its region. */
  lemma SmallMapCovers(k: Kernel, owner: Owner, first: nat, c: Call, v: nat)
    requires KernelOk(k, owner, first) && DoCall(k, c).Done? && CallFine(k, c) && c.Map? && MapsSmall(c, c.space, v)
    ensures Covers(DoCall(k, c).value.m.ram, k.roots[c.space], v)
  {
    hide Entry, Held, MapPage, BigLeaf, EntriesOk, Hit, Follow, Region;
    var root := k.roots[c.space];
    var owner' := MapPageOk(k.m, owner, first, root, c.virt, c.phys, c.size, c.user);
    var m' := DoCall(k, c).value.m;
    assert IsRoot(owner, root) && IsRoot(owner', root);
    assert SamePage(c.virt, c.virt, Size4K);
    assert Serves(Hit(m'.ram, root, c.virt, 0), c.phys, Size4K);
    hide TablesOk;
    DeepWalkCovers(m', owner', first, root, c.virt);
    SamePath(v, c.virt, 3);
  }

  lemma CallCovers(k: Kernel, owner: Owner, first: nat, c: Call, s: nat, v: nat)
    requires KernelOk(k, owner, first) && DoCall(k, c).Done? && CallFine(k, c) && s < |DoCall(k, c).value.roots|
    ensures var k' := DoCall(k, c).value;
            Covers(k'.m.ram, k'.roots[s], v) <==> (s < |k.roots| && Covers(k.m.ram, k.roots[s], v)) || MapsSmall(c, s, v)
  {
    if c.Map? {
      CallSameRoots(k, c);
      hide KernelOk, DoCall, Covers, Region, BigLeaf;
      var k' := DoCall(k, c).value;
      if Covers(k'.m.ram, k'.roots[s], v) {
        MapCoversBefore(k, owner, first, c, s, v);
      } else if MapsSmall(c, s, v) {
        SmallMapCovers(k, owner, first, c, v);
      } else if Covers(k.m.ram, k.roots[s], v) {
        CoversKept(k, owner, first, c, s, v);
      }
    } else {
      hide KernelOk, Covers, Claim;
      NewSpaceCovers(k, owner, first, s, v);
    }
  }

  lemma CallSameRoots(k: Kernel, c: Call)
    requires c.Map? && DoCall(k, c).Done?
    ensures DoCall(k, c).value.roots == k.roots
  {
    hide MapPage;
  }

  // ---- every run

  lemma SmallInOne(calls: seq<Call>, c: Call, s: nat, v: nat)
    ensures SmallIn(calls + [c], s, v) <==> MapsSmall(c, s, v) || SmallIn(calls, s, v)
  {
    hide Region;
    assert (calls + [c])[..|calls|] == calls;
  }

  lemma SmallLastOne(k: Kernel, calls: seq<Call>, c: Call)
    ensures SmallLast(k, calls + [c]) <==>
              && SmallLast(k, calls)
              && (c.Map? && c.size == Size2M ==>
                    !SmallIn(calls, c.space, c.virt) && !(c.space < |k.roots| && Covers(k.m.ram, k.roots[c.space], c.virt)))
  {
    hide SmallIn, Covers;
    assert (calls + [c])[..|calls|] == calls;
  }

  /** While nothing was covered, a region of a space has a table of small pages exactly when it had one before the run or a
      small page was mapped there. */
  lemma {:induction false} CoversIff(k: Kernel, owner: Owner, first: nat, calls: seq<Call>, s: nat, v: nat)
    requires KernelOk(k, owner, first) && Legal(k, calls) && NoCover(k, calls) && RunCalls(k, calls).Done?
    requires s < |RunCalls(k, calls).value.roots|
    ensures var k' := RunCalls(k, calls).value;
            Covers(k'.m.ram, k'.roots[s], v) <==> SmallIn(calls, s, v) || (s < |k.roots| && Covers(k.m.ram, k.roots[s], v))
    decreases |calls|
  {
    if calls != [] {
      hide Covers, DoCall, BigLeaf, KernelOk, UnderLarge, Refines, Spaces, SmallIn, MapsSmall;
      var init, c := calls[..|calls| - 1], calls[|calls| - 1];
      assert calls == init + [c] && Legal(k, init) && RunCalls(k, init).Done?;
      var k1 := RunCalls(k, init).value;
      assert RunCalls(k, calls) == DoCall(k1, c);
      NoCoverLast(k, init, c);
      hide RunCalls, Legal, NoCover;
      var owner1 := RunRefines(k, owner, first, init);
      RefinesRoots(k, init, k1);
      if c.Map? {
        NotUnderLarge(k, init, k1, c);
      }
      CallCovers(k1, owner1, first, c, s, v);
      SmallInOne(init, c, s, v);
      if s < |k1.roots| {
        CoversIff(k, owner, first, init, s, v);
      } else {
        NoneForLater(k, init, s, v);
        FewerRoots(k, init, k1, s);
      }
    }
  }

  lemma RefinesRoots(k: Kernel, calls: seq<Call>, k': Kernel)
    requires Refines(k, calls, k')
    ensures |k'.roots| == Spaces(|k.roots|, calls) && |k.roots| <= |k'.roots|
  {
    hide Spaces, Meets;
  }

  lemma FewerRoots(k: Kernel, calls: seq<Call>, k': Kernel, s: nat)
    requires Refines(k, calls, k') && s >= |k'.roots|
    ensures s >= |k.roots|
  {
    hide Spaces, Meets;
  }

  lemma {:induction false} NoneForLater(k: Kernel, calls: seq<Call>, s: nat, v: nat)
    requires Legal(k, calls) && s >= Spaces(|k.roots|, calls)
    ensures !SmallIn(calls, s, v)
    decreases |calls|
  {
    if calls != [] {
      hide UnderLarge, Region;
      NoneForLater(k, calls[..|calls| - 1], s, v);
    }
  }

  /** So whether a run loses a table can be read off its calls. */
  lemma {:induction false} NoCoverIff(k: Kernel, owner: Owner, first: nat, calls: seq<Call>)
    requires KernelOk(k, owner, first) && Legal(k, calls) && RunCalls(k, calls).Done?
    ensures NoCover(k, calls) <==> SmallLast(k, calls)
    decreases |calls|
  {
    if calls != [] {
      hide Covers, DoCall, BigLeaf, KernelOk, UnderLarge, Refines, Spaces, SmallIn;
      var init, c := calls[..|calls| - 1], calls[|calls| - 1];
      assert calls == init + [c] && Legal(k, init) && RunCalls(k, init).Done?;
      var k1 := RunCalls(k, init).value;
      NoCoverLast(k, init, c);
      SmallLastOne(k, init, c);
      hide RunCalls, Legal, NoCover, SmallLast;
      NoCoverIff(k, owner, first, init);
      if c.Map? && NoCover(k, init) {
        var owner1 := RunRefines(k, owner, first, init);
        NotUnderLarge(k, init, k1, c);
        CoversIff(k, owner, first, init, c.space, c.virt);
      }
    }
  }

  /** From boot on, every frame that paging took is a table that can be reached if and only if no 2 MiB mapping comes after
      a 4 KiB mapping in the same region of the same space. */
  lemma ReachableIffSmallLast(k: Kernel, owner: Owner, first: nat, calls: seq<Call>)
    requires KernelOk(k, owner, first) && k.roots == [] && Legal(k, calls) && RunCalls(k, calls).Done?
    ensures AllReachable(RunCalls(k, calls).value.m, RunCalls(k, calls).value.roots, Held(k.m.frames)) <==> SmallLast(k, calls)
  {
    hide Legal, RunCalls, NoCover, SmallLast, KernelOk, Held, Reachable;
    NoCoverIff(k, owner, first, calls);
    RunReachableIff(k, owner, first, calls, Held(k.m.frames));
  }
}
