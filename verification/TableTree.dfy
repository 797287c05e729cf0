/** The tables as trees (src/mm/paging/paging.c): every frame that paging takes stays reachable, by exactly
    one path from exactly one PML4, unless a 2 MiB mapping is laid over a table of small pages. */
module TableTree {
  import opened Ram
  import opened Outcomes
  import opened Frames
  import opened PageFormat
  import opened Paging
  import opened AddressSpaces

  /** Some list of at most three indices leads from one of the roots to the table. */
  ghost predicate Reachable(ram: Memory, roots: seq<nat>, a: nat) {
    exists s: nat, path: seq<nat> :: s < |roots| && |path| <= 3 && Follow(ram, roots[s], path) == a
  }

  /** Every frame held, other than those in `base`, is a table that can be reached. */
  ghost predicate AllReachable(m: Machine, roots: seq<nat>, base: set<nat>) {
    forall a :: a in Held(m.frames) && a !in base ==> Reachable(m.ram, roots, a)
  }

  ghost predicate AreRoots(owner: Owner, roots: seq<nat>) {
    forall s :: 0 <= s < |roots| ==> IsRoot(owner, roots[s])
  }

  function Path(virt: nat, d: nat): (p: seq<nat>)
    requires d <= 3
    ensures |p| == d && forall i :: 0 <= i < d ==> p[i] == Index(virt, i)
  {
    if d == 0 then [] else Path(virt, d - 1) + [Index(virt, d - 1)]
  }

  /** The entry for the 2 MiB region of the address links a table of small pages. */
  ghost predicate Covers(ram: Memory, root: nat, virt: nat) {
    Follow(ram, root, Path(virt, 3)) != 0
  }

  lemma FollowOne(ram: Memory, r: nat, path: seq<nat>, i: nat)
    requires i < 512
    ensures var p := Follow(ram, r, path);
            Follow(ram, r, path + [i]) ==
              if p == 0 || !Entry(ram, p, i).present || Entry(ram, p, i).large then 0 else Entry(ram, p, i).frame * TABLE
  {
    hide Entry;
    assert (path + [i])[..|path|] == path;
  }

  // ---- links that are kept

  lemma {:induction false} FollowKept(m: Machine, ram': Memory, owner: Owner, first: nat, r: nat, path: seq<nat>)
    requires TablesOk(m, owner, first) && KeepsPresent(m.ram, ram', owner) && IsRoot(owner, r) && |path| <= 3
    requires Follow(m.ram, r, path) != 0
    ensures Follow(ram', r, path) == Follow(m.ram, r, path)
    decreases |path|
  {
    hide Entry, TablesOk;
    if path != [] {
      var init := path[..|path| - 1];
      FollowKept(m, ram', owner, first, r, init);
      FollowSlot(m, owner, first, r, init);
    }
  }

  /** A leaf does not cut a path unless it overwrites a link. */
  lemma {:induction false} FollowPastLeaf(m: Machine, ram': Memory, owner: Owner, first: nat, t: nat, i: nat, w: Pte, r: nat, path: seq<nat>)
    requires TablesOk(m, owner, first) && t in owner && LeafChange(m.ram, ram', owner, t, i, w) && IsRoot(owner, r) && |path| <= 3
    requires owner[t].depth == 3 || !Entry(m.ram, t, i).present || Entry(m.ram, t, i).large
    requires Follow(m.ram, r, path) != 0
    ensures Follow(ram', r, path) == Follow(m.ram, r, path)
    decreases |path|
  {
    hide Entry, TablesOk;
    if path != [] {
      var init := path[..|path| - 1];
      FollowPastLeaf(m, ram', owner, first, t, i, w, r, init);
      FollowSlot(m, owner, first, r, init);
    }
  }

  lemma HeldNonzero(f: seq<Page>, first: nat, a: nat)
    requires Layout(f, first) && a in Held(f)
    ensures a > 0
  {
  }

  lemma ReachedBy(ram: Memory, roots: seq<nat>, s: nat, path: seq<nat>)
    requires s < |roots| && |path| <= 3
    ensures Reachable(ram, roots, Follow(ram, roots[s], path))
  {
    hide Follow;
  }

  lemma TablesHeld(m: Machine, owner: Owner, first: nat)
    requires TablesOk(m, owner, first)
    ensures owner.Keys <= Held(m.frames) && Layout(m.frames, first)
  {
  }

  /** Frames stay reachable when every path does. */
  lemma StillReachable(m: Machine, m': Machine, first: nat, roots: seq<nat>, base: set<nat>, a: nat)
    requires Layout(m.frames, first) && AllReachable(m, roots, base) && a in Held(m.frames) && a !in base
    requires forall s: nat, path: seq<nat> :: s < |roots| && |path| <= 3 && Follow(m.ram, roots[s], path) != 0 ==>
               Follow(m'.ram, roots[s], path) == Follow(m.ram, roots[s], path)
    ensures Reachable(m'.ram, roots, a)
  {
    HeldNonzero(m.frames, first, a);
    hide Follow, Held;
    assert Reachable(m.ram, roots, a);
    var s: nat, path: seq<nat> :| s < |roots| && |path| <= 3 && Follow(m.ram, roots[s], path) == a;
    assert Follow(m'.ram, roots[s], path) == a;
  }

  // ---- one step down

  /** What a step down does to the frames held: nothing, or one more, an empty table. */
  lemma NextLevelHeld(m: Machine, owner: Owner, first: nat, t: nat, i: nat)
    requires TablesOk(m, owner, first) && t in owner && i < 512 && owner[t].depth < 3 && NextLevel(m, t, i).Done?
    ensures var (m', c) := NextLevel(m, t, i).value;
            || m' == m
            || (Held(m'.frames) == Held(m.frames) + {c} && forall j: nat :: j < 512 ==> Entry(m'.ram, c, j) == EMPTY)
  {
    hide Entry;
    assert t > 0;
    if !Entry(m.ram, t, i).present {
      FreshLink(m, owner, first, t, i);
      FreshLinkBytes(m, owner, first, t, i);
    }
  }

  lemma NextLevelReaches(m: Machine, owner: Owner, first: nat, roots: seq<nat>, base: set<nat>, s: nat, path: seq<nat>, t: nat, i: nat)
    requires TablesOk(m, owner, first) && AreRoots(owner, roots) && AllReachable(m, roots, base)
    requires s < |roots| && |path| <= 2 && Follow(m.ram, roots[s], path) == t && t in owner && owner[t].depth < 3 && i < 512
    requires !(Entry(m.ram, t, i).present && Entry(m.ram, t, i).large) && NextLevel(m, t, i).Done?
    ensures var (m', c) := NextLevel(m, t, i).value;
            AllReachable(m', roots, base) && Follow(m'.ram, roots[s], path + [i]) == c
  {
    hide Entry, Follow, Held;
    NextLevelOk(m, owner, first, t, i);
    NextLevelHeld(m, owner, first, t, i);
    var (m', c) := NextLevel(m, t, i).value;
    assert SlotsOk(owner) && t > 0 && Layout(m.frames, first);
    forall s: nat, path: seq<nat> | s < |roots| && |path| <= 3 && Follow(m.ram, roots[s], path) != 0
      ensures Follow(m'.ram, roots[s], path) == Follow(m.ram, roots[s], path)
    {
      FollowKept(m, m'.ram, owner, first, roots[s], path);
    }
    FollowOne(m'.ram, roots[s], path, i);
    assert Links(m'.ram, t, i, c);
    hide NextLevel, TablesOk, OwnerAfter;
    forall a | a in Held(m'.frames) && a !in base ensures Reachable(m'.ram, roots, a) {
      if a in Held(m.frames) {
        StillReachable(m, m', first, roots, base, a);
      } else {
        ReachedBy(m'.ram, roots, s, path + [i]);
      }
    }
  }

  // ---- one mapping

  /** On the way down: what `Reached` says, the path taken, and all frames reachable so far. The table is the
      one that was there before, or an empty one. */
  ghost predicate OnTheWay(m0: Machine, owner0: Owner, m: Machine, owner: Owner, first: nat, roots: seq<nat>, base: set<nat>,
                           s: nat, virt: nat, d: nat, t: nat)
    requires s < |roots|
  {
    && Reached(m0, owner0, m, owner, first, roots[s], virt, d, t)
    && Follow(m.ram, roots[s], Path(virt, d)) == t
    && AllReachable(m, roots, base)
    && (m == m0 || forall j: nat :: j < 512 ==> Entry(m.ram, t, j) == EMPTY)
  }

  lemma RootsKept(f: seq<Page>, owner: Owner, f': seq<Page>, owner': Owner, roots: seq<nat>)
    requires AreRoots(owner, roots) && Grows(f, owner, f', owner')
    ensures AreRoots(owner', roots)
  {
    hide Held;
    forall s | 0 <= s < |roots| ensures IsRoot(owner', roots[s]) {
      assert IsRoot(owner, roots[s]);
    }
  }

  lemma StepDown(m0: Machine, owner0: Owner, m: Machine, owner: Owner, first: nat, roots: seq<nat>, base: set<nat>,
                 s: nat, virt: nat, d: nat, t: nat)
    requires AreRoots(owner0, roots) && s < |roots| && d < 3
    requires OnTheWay(m0, owner0, m, owner, first, roots, base, s, virt, d, t)
    requires d == 2 ==> !BigLeaf(m0.ram, roots[s], virt)
    requires NextLevel(m, t, Index(virt, d)).Done?
    ensures var (m', c) := NextLevel(m, t, Index(virt, d)).value;
            OnTheWay(m0, owner0, m', OwnerAfter(m, owner, t, Index(virt, d)), first, roots, base, s, virt, d + 1, c)
  {
    hide Entry, Follow, Held, BigLeaf;
    var i := Index(virt, d);
    RootsKept(m0.frames, owner0, m.frames, owner, roots);
    assert IsRoot(owner0, roots[s]);
    Descend(m0, owner0, m, owner, first, roots[s], virt, d, t);
    DescendNotBig(m0, owner0, m, owner, first, roots[s], virt, d, t);
    NextLevelReaches(m, owner, first, roots, base, s, Path(virt, d), t, i);
    NextLevelHeld(m, owner, first, t, i);
    assert Path(virt, d + 1) == Path(virt, d) + [i];
    EmptyStays(m, owner, first, t, i);
    hide Reached, TablesOk, NextLevel;
  }

  /** Below an empty table every step allocates. */
  lemma EmptyStays(m: Machine, owner: Owner, first: nat, t: nat, i: nat)
    requires TablesOk(m, owner, first) && t in owner && i < 512 && NextLevel(m, t, i).Done?
    ensures NextLevel(m, t, i).value.0 == m ==> Entry(m.ram, t, i).present
  {
    hide Entry, SetEntry;
    if !Entry(m.ram, t, i).present {
      ClaimSpec(m, first);
      var (m1, a) := Claim(m).value;
      assert a in Held(m1.frames) && a !in Held(m.frames);
    }
  }

  lemma OnTheWayOwner(m0: Machine, owner0: Owner, m: Machine, owner: Owner, first: nat, roots: seq<nat>, base: set<nat>,
                      s: nat, virt: nat, d: nat, t: nat)
    requires s < |roots| && OnTheWay(m0, owner0, m, owner, first, roots, base, s, virt, d, t)
    ensures t in owner
  {
    hide TablesOk, Entry, Follow;
  }

  lemma AtRoot(m: Machine, owner: Owner, first: nat, roots: seq<nat>, base: set<nat>, s: nat, virt: nat)
    requires TablesOk(m, owner, first) && AreRoots(owner, roots) && AllReachable(m, roots, base) && s < |roots|
    ensures OnTheWay(m, owner, m, owner, first, roots, base, s, virt, 0, roots[s])
  {
    hide Entry, AllReachable, Held, EntriesOk, Hit;
    assert IsRoot(owner, roots[s]);
  }

  /** To the page directory. */
  lemma TwoSteps(m: Machine, owner: Owner, first: nat, roots: seq<nat>, base: set<nat>, s: nat, virt: nat)
      returns (m': Machine, owner': Owner, t: nat)
    requires AreRoots(owner, roots) && s < |roots|
    requires OnTheWay(m, owner, m, owner, first, roots, base, s, virt, 0, roots[s])
    requires Locate(m, roots[s], virt, Size2M).Done?
    ensures Locate(m, roots[s], virt, Size2M) == Done((m', t))
    ensures OnTheWay(m, owner, m', owner', first, roots, base, s, virt, 2, t)
  {
    hide Entry, OnTheWay, BigLeaf, NextLevel, AllReachable, TablesOk, OwnerAfter, AreRoots, Index, Path;
    OnTheWayOwner(m, owner, m, owner, first, roots, base, s, virt, 0, roots[s]);
    StepDown(m, owner, m, owner, first, roots, base, s, virt, 0, roots[s]);
    var (m1, pdpt) := NextLevel(m, roots[s], Index(virt, 0)).value;
    var owner1 := OwnerAfter(m, owner, roots[s], Index(virt, 0));
    OnTheWayOwner(m, owner, m1, owner1, first, roots, base, s, virt, 1, pdpt);
    StepDown(m, owner, m1, owner1, first, roots, base, s, virt, 1, pdpt);
    var (m2, pd) := NextLevel(m1, pdpt, Index(virt, 1)).value;
    m', owner', t := m2, OwnerAfter(m1, owner1, pdpt, Index(virt, 1)), pd;
  }

  /** The whole way down. */
  lemma LocateReaches(m: Machine, owner: Owner, first: nat, roots: seq<nat>, base: set<nat>, s: nat, virt: nat, size: PageSize)
      returns (owner': Owner)
    requires TablesOk(m, owner, first) && AreRoots(owner, roots) && AllReachable(m, roots, base) && s < |roots|
    requires size == Size4K ==> !BigLeaf(m.ram, roots[s], virt)
    requires Locate(m, roots[s], virt, size).Done?
    ensures var (m', t) := Locate(m, roots[s], virt, size).value;
            OnTheWay(m, owner, m', owner', first, roots, base, s, virt, LeafDepth(size), t)
  {
    hide Entry, OnTheWay, BigLeaf, NextLevel, AllReachable, TablesOk, OwnerAfter, AreRoots, Index, Path;
    AtRoot(m, owner, first, roots, base, s, virt);
    var m1, owner1, t1 := TwoSteps(m, owner, first, roots, base, s, virt);
    owner' := owner1;
    if size == Size4K {
      StepDown(m, owner, m1, owner1, first, roots, base, s, virt, 2, t1);
      OnTheWayOwner(m, owner, m1, owner1, first, roots, base, s, virt, 2, t1);
      owner' := OwnerAfter(m1, owner1, t1, Index(virt, 2));
    }
  }

  /** An entry that is about to be overwritten is no link, unless the mapping covers a table. */
  lemma NoLinkLost(m0: Machine, owner0: Owner, m: Machine, owner: Owner, first: nat, roots: seq<nat>, base: set<nat>,
                   s: nat, virt: nat, t: nat)
    requires s < |roots| && OnTheWay(m0, owner0, m, owner, first, roots, base, s, virt, 2, t)
    requires !Covers(m0.ram, roots[s], virt)
    ensures !Entry(m.ram, t, Index(virt, 2)).present || Entry(m.ram, t, Index(virt, 2)).large
  {
    hide Entry, Follow, Held, AllReachable, Leads;
    var i := Index(virt, 2);
    assert Path(virt, 3) == Path(virt, 2) + [i];
    FollowOne(m.ram, roots[s], Path(virt, 2), i);
    assert EntryOk(m.ram, owner, t, i);
  }

  /** `MapMemory` keeps every table reachable that was, and makes the new ones reachable, unless it lays a 2 MiB
      page over a table of small pages. */
  lemma MapReaches(m: Machine, owner: Owner, first: nat, roots: seq<nat>, base: set<nat>, s: nat,
                   virt: nat, phys: nat, size: PageSize, user: bool)
    requires TablesOk(m, owner, first) && AreRoots(owner, roots) && AllReachable(m, roots, base) && s < |roots|
    requires if size == Size4K then !BigLeaf(m.ram, roots[s], virt) else !Covers(m.ram, roots[s], virt)
    requires MapPage(m, roots[s], virt, phys, size, user).Done?
    ensures AllReachable(MapPage(m, roots[s], virt, phys, size, user).value.0, roots, base)
  {
    hide Entry, BigLeaf, Covers, AllReachable, Follow;
    var owner1 := LocateReaches(m, owner, first, roots, base, s, virt, size);
    var (m1, t) := Locate(m, roots[s], virt, size).value;
    if size == Size2M {
      NoLinkLost(m, owner, m1, owner1, first, roots, base, s, virt, t);
    }
    RootsKept(m.frames, owner, m1.frames, owner1, roots);
    assert t != 0;
    hide Locate, NextLevel;
    LeafReaches(m1, owner1, first, roots, base, t, virt, phys, size, user);
  }

  lemma LeafReaches(m: Machine, owner: Owner, first: nat, roots: seq<nat>, base: set<nat>, t: nat,
                    virt: nat, phys: nat, size: PageSize, user: bool)
    requires TablesOk(m, owner, first) && AreRoots(owner, roots) && AllReachable(m, roots, base)
    requires t in owner && owner[t].depth == LeafDepth(size)
    requires var e := Entry(m.ram, t, LeafIndex(virt, size)); size == Size2M ==> !e.present || e.large
    ensures AllReachable(m.(ram := SetLeaf(m.ram, t, LeafIndex(virt, size), phys, size, user)), roots, base)
  {
    hide Entry, Follow, Held;
    var i := LeafIndex(virt, size);
    var m' := m.(ram := SetLeaf(m.ram, t, i, phys, size, user));
    LeafWritten(m, owner, first, t, virt, phys, size, user);
    forall s: nat, path: seq<nat> | s < |roots| && |path| <= 3 && Follow(m.ram, roots[s], path) != 0
      ensures Follow(m'.ram, roots[s], path) == Follow(m.ram, roots[s], path)
    {
      FollowPastLeaf(m, m'.ram, owner, first, t, i, LeafEntry(Entry(m.ram, t, i), phys, size, user), roots[s], path);
    }
    forall a | a in Held(m.frames) && a !in base ensures Reachable(m'.ram, roots, a) {
      StillReachable(m, m', first, roots, base, a);
    }
  }

  // ---- a 2 MiB mapping over a table of small pages

  /** Where three links lead on, the walk does not end at a 2 MiB leaf. */
  lemma FollowedNotBig(ram: Memory, root: nat, virt: nat)
    requires Covers(ram, root, virt)
    ensures !BigLeaf(ram, root, virt)
  {
    hide Entry;
    var i0, i1, i2 := Index(virt, 0), Index(virt, 1), Index(virt, 2);
    assert Path(virt, 1) == [] + [i0];
    assert Path(virt, 2) == Path(virt, 1) + [i1];
    assert Path(virt, 3) == Path(virt, 2) + [i2];
    FollowOne(ram, root, [], i0);
    FollowOne(ram, root, Path(virt, 1), i1);
    FollowOne(ram, root, Path(virt, 2), i2);
    hide Follow;
    var pdpt, pd := Follow(ram, root, Path(virt, 1)), Follow(ram, root, Path(virt, 2));
    assert Hit(ram, root, virt, 0) == Hit(ram, pdpt, virt, 1) == Hit(ram, pd, virt, 2);
    assert Hit(ram, pd, virt, 2) == Hit(ram, Follow(ram, root, Path(virt, 3)), virt, 3);
  }

  /** The covered table is lost: no path from any PML4 leads to it any more, though its frame stays held. */
  lemma CoveredIsOrphaned(m: Machine, owner: Owner, first: nat, roots: seq<nat>, s: nat, virt: nat, phys: nat, user: bool)
    requires TablesOk(m, owner, first) && AreRoots(owner, roots) && s < |roots| && Covers(m.ram, roots[s], virt)
    requires MapPage(m, roots[s], virt, phys, Size2M, user).Done?
    ensures var m' := MapPage(m, roots[s], virt, phys, Size2M, user).value.0;
            var table := Follow(m.ram, roots[s], Path(virt, 3));
            table in owner && table in Held(m'.frames) && !Reachable(m'.ram, roots, table)
  {
    hide Entry, Follow, Held, Hit, MapPage, TablesOk;
    var root := roots[s];
    assert IsRoot(owner, root);
    var table := Follow(m.ram, root, Path(virt, 3));
    FollowSlot(m, owner, first, root, Path(virt, 3));
    var owner' := MapPageOk(m, owner, first, root, virt, phys, Size2M, user);
    var m' := MapPage(m, root, virt, phys, Size2M, user).value.0;
    TablesHeld(m', owner', first);
    RootsKept(m.frames, owner, m'.frames, owner', roots);
    assert SamePage(virt, virt, Size2M) && Serves(Hit(m'.ram, root, virt, 0), phys, Size2M);
    forall s': nat, path: seq<nat> | s' < |roots| && |path| <= 3 ensures Follow(m'.ram, roots[s'], path) != table {
      if Follow(m'.ram, roots[s'], path) == table {
        FollowSlot(m', owner', first, roots[s'], path);
        PathNumberUnique(path, Path(virt, 3));
        FollowedNotBig(m'.ram, root, virt);
        assert false;
      }
    }
  }

  /** So a mapping keeps every table reachable if and only if it is no 2 MiB mapping over a table of small
      pages. */
  lemma ReachableIff(m: Machine, owner: Owner, first: nat, roots: seq<nat>, base: set<nat>, s: nat,
                     virt: nat, phys: nat, size: PageSize, user: bool)
    requires TablesOk(m, owner, first) && AreRoots(owner, roots) && AllReachable(m, roots, base) && s < |roots|
    requires owner.Keys !! base && (size == Size4K ==> !BigLeaf(m.ram, roots[s], virt))
    requires MapPage(m, roots[s], virt, phys, size, user).Done?
    ensures AllReachable(MapPage(m, roots[s], virt, phys, size, user).value.0, roots, base)
            <==> !(size == Size2M && Covers(m.ram, roots[s], virt))
  {
    hide MapPage, Covers, BigLeaf, TablesOk, Follow, Held, Reachable;
    if size == Size2M && Covers(m.ram, roots[s], virt) {
      CoveredIsOrphaned(m, owner, first, roots, s, virt, phys, user);
    } else {
      MapReaches(m, owner, first, roots, base, s, virt, phys, size, user);
    }
  }

  // ---- every run

  /** No 2 MiB mapping is laid over a table of small pages. */
  ghost predicate NoCover(k: Kernel, calls: seq<Call>)
    decreases |calls|
  {
    calls != [] ==>
      var init, c := calls[..|calls| - 1], calls[|calls| - 1];
      && NoCover(k, init)
      && (RunCalls(k, init).Done? && c.Map? && c.size == Size2M && c.space < |RunCalls(k, init).value.roots| ==>
            var k1 := RunCalls(k, init).value; !Covers(k1.m.ram, k1.roots[c.space], c.virt))
  }

  lemma NewRootReaches(m: Machine, owner: Owner, first: nat, roots: seq<nat>, base: set<nat>)
    requires TablesOk(m, owner, first) && AreRoots(owner, roots) && AllReachable(m, roots, base) && Claim(m).Done?
    ensures AllReachable(Claim(m).value.0, roots + [Claim(m).value.1], base)
  {
    var (m', r) := Claim(m).value;
    var roots' := roots + [r];
    assert Follow(m'.ram, roots'[|roots|], []) == r;
    TablesHeld(m, owner, first);
    hide Entry, Follow, Held, Claim, TablesOk;
    ClaimSpec(m, first);
    forall t, j: nat | t in owner && j < 512 ensures Entry(m'.ram, t, j) == Entry(m.ram, t, j) {
      ClaimKeepsTables(m, owner, first, t, j);
    }
    forall s: nat, path: seq<nat> | s < |roots| && |path| <= 3 && Follow(m.ram, roots[s], path) != 0
      ensures Follow(m'.ram, roots[s], path) == Follow(m.ram, roots[s], path)
    {
      FollowKept(m, m'.ram, owner, first, roots[s], path);
    }
    forall a | a in Held(m'.frames) && a !in base ensures Reachable(m'.ram, roots', a) {
      if a in Held(m.frames) {
        StillReachable(m, m', first, roots, base, a);
        var s: nat, path: seq<nat> :| s < |roots| && |path| <= 3 && Follow(m'.ram, roots[s], path) == a;
        ReachedBy(m'.ram, roots', s, path);
      } else {
        ReachedBy(m'.ram, roots', |roots|, []);
      }
    }
  }

  lemma {:induction false} RunReaches(k: Kernel, owner: Owner, first: nat, calls: seq<Call>, base: set<nat>)
    requires KernelOk(k, owner, first) && Legal(k, calls) && NoCover(k, calls) && AllReachable(k.m, k.roots, base)
    requires RunCalls(k, calls).Done?
    ensures AllReachable(RunCalls(k, calls).value.m, RunCalls(k, calls).value.roots, base)
    decreases |calls|
  {
    if calls != [] {
      hide Covers, AllReachable, DoCall, BigLeaf, KernelOk, UnderLarge, Refines, Spaces, Held;
      var init, c := calls[..|calls| - 1], calls[|calls| - 1];
      assert calls == init + [c] && Legal(k, init) && RunCalls(k, init).Done?;
      var k1 := RunCalls(k, init).value;
      assert RunCalls(k, calls) == DoCall(k1, c);
      NoCoverLast(k, init, c);
      hide RunCalls, Legal, NoCover;
      RunReaches(k, owner, first, init, base);
      var owner1 := RunRefines(k, owner, first, init);
      if c.Map? {
        NotUnderLarge(k, init, k1, c);
      }
      CallReaches(k1, owner1, first, c, base);
    }
  }

  lemma CallReaches(k: Kernel, owner: Owner, first: nat, c: Call, base: set<nat>)
    requires KernelOk(k, owner, first) && AllReachable(k.m, k.roots, base) && DoCall(k, c).Done?
    requires c.Map? ==> c.space < |k.roots|
    requires c.Map? && c.size == Size4K ==> !BigLeaf(k.m.ram, k.roots[c.space], c.virt)
    requires c.Map? && c.size == Size2M ==> !Covers(k.m.ram, k.roots[c.space], c.virt)
    ensures AllReachable(DoCall(k, c).value.m, DoCall(k, c).value.roots, base)
  {
    hide AllReachable, MapPage, BigLeaf, Covers, TablesOk;
    assert AreRoots(owner, k.roots);
    if c.Map? {
      MapReaches(k.m, owner, first, k.roots, base, c.space, c.virt, c.phys, c.size, c.user);
    } else {
      NewRootReaches(k.m, owner, first, k.roots, base);
    }
  }

  // ---- nothing lost is found again

  /** Every path leads where it led before, nowhere, or to a frame nobody held; and then it is one of the paths from the
      root towards the address, at most d long. */
  ghost predicate Shrunk(m0: Machine, m: Machine, owner0: Owner, root: nat, virt: nat, d: nat) {
    forall r, path: seq<nat> {:trigger Follow(m.ram, r, path)} :: IsRoot(owner0, r) && |path| <= 3 ==>
      OldOrTowards(m0, Follow(m0.ram, r, path), Follow(m.ram, r, path), r, path, root, virt, d)
  }

  ghost predicate OldOrTowards(m0: Machine, f: nat, g: nat, r: nat, path: seq<nat>, root: nat, virt: nat, d: nat)
    requires |path| <= 3
  {
    g == 0 || g == f
    || (g !in Held(m0.frames) && |path| <= d && r == root && PathNumber(path) == Region(virt, |path|))
  }

  /** A fresh link adds paths only to the fresh table. */
  lemma {:induction false} FollowLinked(m: Machine, ram': Memory, owner: Owner, first: nat, t: nat, i: nat, n: nat, r: nat, path: seq<nat>)
    requires TablesOk(m, owner, first) && t in owner && Linked(m.ram, ram', owner, t, i, n) && IsRoot(owner, r) && |path| <= 3
    ensures var f, g := Follow(m.ram, r, path), Follow(ram', r, path);
            g == 0 || g == f
            || (g == n && |path| == owner[t].depth + 1 && r == owner[t].root && PathNumber(path) == owner[t].region * 512 + i)
    decreases |path|
  {
    hide Entry, TablesOk;
    if path != [] {
      var init := path[..|path| - 1];
      FollowLinked(m, ram', owner, first, t, i, n, r, init);
      if Follow(m.ram, r, init) != 0 {
        FollowSlot(m, owner, first, r, init);
      }
    }
  }

  /** A leaf adds no path. */
  lemma {:induction false} FollowLeaf(m: Machine, ram': Memory, owner: Owner, first: nat, t: nat, i: nat, w: Pte, r: nat, path: seq<nat>)
    requires TablesOk(m, owner, first) && t in owner && LeafChange(m.ram, ram', owner, t, i, w) && IsRoot(owner, r) && |path| <= 3
    ensures Follow(ram', r, path) == 0 || Follow(ram', r, path) == Follow(m.ram, r, path)
    decreases |path|
  {
    hide Entry, TablesOk;
    if path != [] {
      var init := path[..|path| - 1];
      FollowLeaf(m, ram', owner, first, t, i, w, r, init);
      if Follow(m.ram, r, init) != 0 {
        FollowSlot(m, owner, first, r, init);
      }
    }
  }

  lemma NextLevelShrinks(m: Machine, owner: Owner, first: nat, t: nat, root: nat, virt: nat, d: nat)
    requires TablesOk(m, owner, first) && t in owner && d < 3 && owner[t] == Slot(root, d, Region(virt, d))
    requires NextLevel(m, t, Index(virt, d)).Done?
    ensures Shrunk(m, NextLevel(m, t, Index(virt, d)).value.0, owner, root, virt, d + 1)
  {
    hide Entry, Follow, Held, Linked, PathNumber;
    var i := Index(virt, d);
    var m' := NextLevel(m, t, i).value.0;
    RegionStep(virt, d);
    if !Entry(m.ram, t, i).present && t != 0 {
      TablesHeld(m, owner, first);
      ClaimSpec(m, first);
      FreshLink(m, owner, first, t, i);
      var n := Claim(m).value.1;
      hide NextLevel, Claim, TablesOk, Index, Region;
      forall r, path: seq<nat> | IsRoot(owner, r) && |path| <= 3
        ensures OldOrTowards(m, Follow(m.ram, r, path), Follow(m'.ram, r, path), r, path, root, virt, d + 1)
      {
        FollowLinked(m, m'.ram, owner, first, t, i, n, r, path);
      }
    }
  }

  lemma ShrunkCompose(m0: Machine, owner0: Owner, m: Machine, owner: Owner, m': Machine, root: nat, virt: nat, d: nat, d': nat)
    requires Shrunk(m0, m, owner0, root, virt, d) && Shrunk(m, m', owner, root, virt, d') && d <= d'
    requires Grows(m0.frames, owner0, m.frames, owner)
    ensures Shrunk(m0, m', owner0, root, virt, d')
  {
    hide Follow, Held, PathNumber, Region;
    forall r, path: seq<nat> | IsRoot(owner0, r) && |path| <= 3
      ensures OldOrTowards(m0, Follow(m0.ram, r, path), Follow(m'.ram, r, path), r, path, root, virt, d')
    {
      assert IsRoot(owner, r);
      var f1 := Follow(m.ram, r, path);
    }
  }

  lemma StepShrinks(m0: Machine, owner0: Owner, m: Machine, owner: Owner, first: nat, root: nat, virt: nat, d: nat, t: nat)
    requires Reached(m0, owner0, m, owner, first, root, virt, d, t) && d < 3 && Shrunk(m0, m, owner0, root, virt, d)
    requires IsRoot(owner0, root) && (d == 2 ==> !BigLeaf(m0.ram, root, virt)) && NextLevel(m, t, Index(virt, d)).Done?
    ensures var (m', c) := NextLevel(m, t, Index(virt, d)).value;
            && Reached(m0, owner0, m', OwnerAfter(m, owner, t, Index(virt, d)), first, root, virt, d + 1, c)
            && Shrunk(m0, m', owner0, root, virt, d + 1)
  {
    hide Entry, Follow, Held, BigLeaf, NextLevel, Shrunk, OwnerAfter, Index, Region;
    Descend(m0, owner0, m, owner, first, root, virt, d, t);
    NextLevelShrinks(m, owner, first, t, root, virt, d);
    ShrunkCompose(m0, owner0, m, owner, NextLevel(m, t, Index(virt, d)).value.0, root, virt, d, d + 1);
  }

  lemma LocateShrinks(m: Machine, owner: Owner, first: nat, root: nat, virt: nat, size: PageSize) returns (owner': Owner)
    requires TablesOk(m, owner, first) && IsRoot(owner, root) && Locate(m, root, virt, size).Done?
    requires size == Size4K ==> !BigLeaf(m.ram, root, virt)
    ensures var (m', t) := Locate(m, root, virt, size).value;
            && Reached(m, owner, m', owner', first, root, virt, LeafDepth(size), t)
            && Shrunk(m, m', owner, root, virt, LeafDepth(size))
  {
    hide Entry, BigLeaf, NextLevel, TablesOk, OwnerAfter, Index, Reached, Shrunk;
    var m1, owner1, t1 := TwoStepsShrink(m, owner, first, root, virt);
    owner' := owner1;
    if size == Size4K {
      StepShrinks(m, owner, m1, owner1, first, root, virt, 2, t1);
      ReachedOwner(m, owner, m1, owner1, first, root, virt, 2, t1);
      owner' := OwnerAfter(m1, owner1, t1, Index(virt, 2));
    }
  }

  lemma TwoStepsShrink(m: Machine, owner: Owner, first: nat, root: nat, virt: nat) returns (m': Machine, owner': Owner, t: nat)
    requires TablesOk(m, owner, first) && IsRoot(owner, root) && Locate(m, root, virt, Size2M).Done?
    ensures Locate(m, root, virt, Size2M) == Done((m', t))
    ensures Reached(m, owner, m', owner', first, root, virt, 2, t) && Shrunk(m, m', owner, root, virt, 2)
  {
    hide Entry, BigLeaf, NextLevel, TablesOk, OwnerAfter, Index, Reached, Shrunk;
    StartReached(m, owner, first, root, virt);
    StepShrinks(m, owner, m, owner, first, root, virt, 0, root);
    var (m1, pdpt) := NextLevel(m, root, Index(virt, 0)).value;
    ReachedOwner(m, owner, m, owner, first, root, virt, 0, root);
    var owner1 := OwnerAfter(m, owner, root, Index(virt, 0));
    StepShrinks(m, owner, m1, owner1, first, root, virt, 1, pdpt);
    var (m2, pd) := NextLevel(m1, pdpt, Index(virt, 1)).value;
    ReachedOwner(m, owner, m1, owner1, first, root, virt, 1, pdpt);
    m', owner', t := m2, OwnerAfter(m1, owner1, pdpt, Index(virt, 1)), pd;
  }

  lemma StartReached(m: Machine, owner: Owner, first: nat, root: nat, virt: nat)
    requires TablesOk(m, owner, first) && IsRoot(owner, root)
    ensures Reached(m, owner, m, owner, first, root, virt, 0, root) && Shrunk(m, m, owner, root, virt, 0)
  {
    hide Entry, Held, EntriesOk, Hit, Follow, PathNumber;
  }

  lemma ReachedOwner(m0: Machine, owner0: Owner, m: Machine, owner: Owner, first: nat, root: nat, virt: nat, d: nat, t: nat)
    requires Reached(m0, owner0, m, owner, first, root, virt, d, t)
    ensures t in owner && TablesOk(m, owner, first) && Grows(m0.frames, owner0, m.frames, owner) && d <= 3 && owner[t].depth == d
    ensures t > 0
  {
    hide Entry, Leads, EntriesOk, SameWalks, OnlyTables;
  }

  /** `MapMemory` adds no path but to tables it took; a 2 MiB mapping adds no table of small pages. */
  lemma MapShrinks(m: Machine, owner: Owner, first: nat, root: nat, virt: nat, phys: nat, size: PageSize, user: bool)
    requires TablesOk(m, owner, first) && IsRoot(owner, root) && MapPage(m, root, virt, phys, size, user).Done?
    requires size == Size4K ==> !BigLeaf(m.ram, root, virt)
    ensures Shrunk(m, MapPage(m, root, virt, phys, size, user).value.0, owner, root, virt, LeafDepth(size))
  {
    hide Entry, Follow, Held, BigLeaf, Locate, Reached, TablesOk, Shrunk, SetLeaf, LeafChange;
    var owner1 := LocateShrinks(m, owner, first, root, virt, size);
    var (m1, t) := Locate(m, root, virt, size).value;
    ReachedOwner(m, owner, m1, owner1, first, root, virt, LeafDepth(size), t);
    LeafShrinks(m1, owner1, first, root, t, virt, phys, size, user);
    ShrunkCompose(m, owner, m1, owner1, MapPage(m, root, virt, phys, size, user).value.0, root, virt, LeafDepth(size), LeafDepth(size));
  }

  lemma LeafShrinks(m: Machine, owner: Owner, first: nat, root: nat, t: nat, virt: nat, phys: nat, size: PageSize, user: bool)
    requires TablesOk(m, owner, first) && t in owner && owner[t].depth == LeafDepth(size)
    ensures Shrunk(m, m.(ram := SetLeaf(m.ram, t, LeafIndex(virt, size), phys, size, user)), owner, root, virt, LeafDepth(size))
  {
    hide Entry, Follow, Held, TablesOk, SetLeaf, LeafChange;
    var i := LeafIndex(virt, size);
    var m' := m.(ram := SetLeaf(m.ram, t, i, phys, size, user));
    LeafWritten(m, owner, first, t, virt, phys, size, user);
    forall r, path: seq<nat> | IsRoot(owner, r) && |path| <= 3
      ensures Follow(m'.ram, r, path) == 0 || Follow(m'.ram, r, path) == Follow(m.ram, r, path)
    {
      FollowLeaf(m, m'.ram, owner, first, t, i, LeafEntry(Entry(m.ram, t, i), phys, size, user), r, path);
    }
  }

  lemma {:induction false} FollowSame(m: Machine, ram': Memory, owner: Owner, first: nat, r: nat, path: seq<nat>)
    requires TablesOk(m, owner, first) && IsRoot(owner, r) && |path| <= 3
    requires forall t, j: nat :: t in owner && j < 512 ==> Entry(ram', t, j) == Entry(m.ram, t, j)
    ensures Follow(ram', r, path) == Follow(m.ram, r, path)
    decreases |path|
  {
    hide Entry, TablesOk;
    if path != [] {
      var init := path[..|path| - 1];
      FollowSame(m, ram', owner, first, r, init);
      if Follow(m.ram, r, init) != 0 {
        FollowSlot(m, owner, first, r, init);
      }
    }
  }

  lemma {:induction false} FollowEmpty(ram: Memory, r: nat, path: seq<nat>)
    requires forall j: nat :: j < 512 ==> Entry(ram, r, j) == EMPTY
    ensures Follow(ram, r, path) == if path == [] then r else 0
    decreases |path|
  {
    hide Entry;
    if path != [] {
      FollowEmpty(ram, r, path[..|path| - 1]);
    }
  }

  /** No path from a root leads into `base`. */
  ghost predicate BaseClear(ram: Memory, roots: seq<nat>, base: set<nat>) {
    forall s: nat, path: seq<nat> :: s < |roots| && |path| <= 3 && Follow(ram, roots[s], path) != 0 ==>
      Follow(ram, roots[s], path) !in base
  }

  /** After a call every path is as before, leads nowhere, or leads to a frame nobody held; and frames stay held. */
  lemma CallShrinks(k: Kernel, owner: Owner, first: nat, c: Call, s: nat, path: seq<nat>)
    requires KernelOk(k, owner, first) && DoCall(k, c).Done? && |path| <= 3 && s < |DoCall(k, c).value.roots|
    requires c.Map? ==> c.space < |k.roots|
    requires c.Map? && c.size == Size4K ==> !BigLeaf(k.m.ram, k.roots[c.space], c.virt)
    ensures var k' := DoCall(k, c).value;
            var g := Follow(k'.m.ram, k'.roots[s], path);
            g == 0 || g !in Held(k.m.frames) || (s < |k.roots| && g == Follow(k.m.ram, k.roots[s], path))
    ensures Held(k.m.frames) <= Held(DoCall(k, c).value.m.frames)
  {
    hide Entry, Follow, Held, MapPage, BigLeaf, EntriesOk;
    var k' := DoCall(k, c).value;
    if c.Map? {
      var owner' := MapPageOk(k.m, owner, first, k.roots[c.space], c.virt, c.phys, c.size, c.user);
      MapShrinks(k.m, owner, first, k.roots[c.space], c.virt, c.phys, c.size, c.user);
      assert IsRoot(owner, k.roots[s]);
    } else {
      NewRootShrinks(k.m, owner, first, k.roots, s, path);
    }
  }

  lemma NewRootShrinks(m: Machine, owner: Owner, first: nat, roots: seq<nat>, s: nat, path: seq<nat>)
    requires TablesOk(m, owner, first) && AreRoots(owner, roots) && Claim(m).Done? && s <= |roots| && |path| <= 3
    ensures var (m', r) := Claim(m).value;
            var g := Follow(m'.ram, (roots + [r])[s], path);
            && (g == 0 || g !in Held(m.frames) || (s < |roots| && g == Follow(m.ram, roots[s], path)))
            && Held(m.frames) <= Held(m'.frames)
  {
    hide Entry, Follow, Held, Claim, TablesOk;
    var (m', r) := Claim(m).value;
    TablesHeld(m, owner, first);
    ClaimSpec(m, first);
    if s < |roots| {
      forall t, j: nat | t in owner && j < 512 ensures Entry(m'.ram, t, j) == Entry(m.ram, t, j) {
        ClaimKeepsTables(m, owner, first, t, j);
      }
      FollowSame(m, m'.ram, owner, first, roots[s], path);
    } else {
      forall j: nat | j < 512 ensures Entry(m'.ram, r, j) == EMPTY {
        ClaimKeepsTables(m, owner, first, r, j);
      }
      FollowEmpty(m'.ram, r, path);
    }
  }

  /** Every path of the later kernel is an old one, leads nowhere, or leads to a frame nobody held. */
  ghost predicate Inherits(k: Kernel, k': Kernel) {
    forall s: nat, path: seq<nat> {:trigger Follow(k'.m.ram, k'.roots[s], path)} :: s < |k'.roots| && |path| <= 3 ==>
      var g := Follow(k'.m.ram, k'.roots[s], path);
      g == 0 || g !in Held(k.m.frames) || (s < |k.roots| && g == Follow(k.m.ram, k.roots[s], path))
  }

  lemma CallInherits(k: Kernel, owner: Owner, first: nat, c: Call)
    requires KernelOk(k, owner, first) && DoCall(k, c).Done?
    requires c.Map? ==> c.space < |k.roots|
    requires c.Map? && c.size == Size4K ==> !BigLeaf(k.m.ram, k.roots[c.space], c.virt)
    ensures Inherits(k, DoCall(k, c).value)
  {
    hide Follow, Held, DoCall, KernelOk, BigLeaf;
    var k' := DoCall(k, c).value;
    forall s: nat, path: seq<nat> | s < |k'.roots| && |path| <= 3
      ensures var g := Follow(k'.m.ram, k'.roots[s], path);
              g == 0 || g !in Held(k.m.frames) || (s < |k.roots| && g == Follow(k.m.ram, k.roots[s], path))
    {
      CallShrinks(k, owner, first, c, s, path);
    }
  }

  lemma BaseStaysClear(k: Kernel, k': Kernel, base: set<nat>)
    requires Inherits(k, k') && BaseClear(k.m.ram, k.roots, base) && base <= Held(k.m.frames)
    ensures BaseClear(k'.m.ram, k'.roots, base)
  {
    hide Follow, Held;
  }

  lemma FrameStaysLost(k: Kernel, k': Kernel, a: nat)
    requires Inherits(k, k') && a in Held(k.m.frames) && a > 0 && Reachable(k'.m.ram, k'.roots, a)
    ensures Reachable(k.m.ram, k.roots, a)
  {
    hide Follow, Held;
    var s: nat, path: seq<nat> :| s < |k'.roots| && |path| <= 3 && Follow(k'.m.ram, k'.roots[s], path) == a;
    ReachedBy(k.m.ram, k.roots, s, path);
  }

  /** A frame that cannot be reached stays so: no frame is ever freed and taken again. */
  lemma LostStaysLost(k: Kernel, owner: Owner, first: nat, c: Call, base: set<nat>)
    requires KernelOk(k, owner, first) && DoCall(k, c).Done? && base <= Held(k.m.frames)
    requires c.Map? ==> c.space < |k.roots|
    requires c.Map? && c.size == Size4K ==> !BigLeaf(k.m.ram, k.roots[c.space], c.virt)
    ensures var k' := DoCall(k, c).value;
            && base <= Held(k'.m.frames)
            && (BaseClear(k.m.ram, k.roots, base) ==> BaseClear(k'.m.ram, k'.roots, base))
            && (!AllReachable(k.m, k.roots, base) ==> !AllReachable(k'.m, k'.roots, base))
  {
    hide Held, DoCall, BigLeaf, Layout, Reachable, BaseClear, Inherits, TablesOk;
    TablesHeld(k.m, owner, first);
    hide KernelOk;
    var k' := DoCall(k, c).value;
    CallInherits(k, owner, first, c);
    CallHeld(k, owner, first, c);
    if BaseClear(k.m.ram, k.roots, base) {
      BaseStaysClear(k, k', base);
    }
    if !AllReachable(k.m, k.roots, base) {
      var a :| a in Held(k.m.frames) && a !in base && !Reachable(k.m.ram, k.roots, a);
      HeldNonzero(k.m.frames, first, a);
      if Reachable(k'.m.ram, k'.roots, a) {
        FrameStaysLost(k, k', a);
        assert false;
      }
    }
  }

  lemma CallHeld(k: Kernel, owner: Owner, first: nat, c: Call)
    requires KernelOk(k, owner, first) && DoCall(k, c).Done?
    requires c.Map? ==> c.space < |k.roots|
    requires c.Map? && c.size == Size4K ==> !BigLeaf(k.m.ram, k.roots[c.space], c.virt)
    ensures Held(k.m.frames) <= Held(DoCall(k, c).value.m.frames)
  {
    if k.roots == [] {
      assert c.NewSpace?;
      hide Held, Claim;
      TablesHeld(k.m, owner, first);
      ClaimSpec(k.m, first);
    } else {
      hide Held, DoCall, KernelOk, BigLeaf;
      CallRoots(k, c);
      CallShrinks(k, owner, first, c, 0, []);
    }
  }

  lemma CallRoots(k: Kernel, c: Call)
    requires DoCall(k, c).Done?
    ensures |DoCall(k, c).value.roots| >= |k.roots|
  {
    hide MapPage, Claim;
  }

  /** Over every run of PML4 creations and mappings with no 4 KiB mapping inside a 2 MiB one in force: every frame the
      run took can be reached if and only if no 2 MiB mapping was laid over a table of small pages. */
  lemma {:induction false} RunReachableIff(k: Kernel, owner: Owner, first: nat, calls: seq<Call>, base: set<nat>)
    requires KernelOk(k, owner, first) && Legal(k, calls) && RunCalls(k, calls).Done?
    requires AllReachable(k.m, k.roots, base) && BaseClear(k.m.ram, k.roots, base) && base <= Held(k.m.frames)
    ensures var k' := RunCalls(k, calls).value;
            && (AllReachable(k'.m, k'.roots, base) <==> NoCover(k, calls))
            && BaseClear(k'.m.ram, k'.roots, base) && base <= Held(k'.m.frames)
    decreases |calls|
  {
    if calls != [] {
      hide Covers, AllReachable, DoCall, BigLeaf, KernelOk, UnderLarge, Refines, Spaces, BaseClear, Held;
      var init, c := calls[..|calls| - 1], calls[|calls| - 1];
      assert calls == init + [c] && Legal(k, init) && RunCalls(k, init).Done?;
      var k1 := RunCalls(k, init).value;
      assert RunCalls(k, calls) == DoCall(k1, c);
      NoCoverLast(k, init, c);
      hide RunCalls, Legal, NoCover;
      RunReachableIff(k, owner, first, init, base);
      var owner1 := RunRefines(k, owner, first, init);
      if c.Map? {
        NotUnderLarge(k, init, k1, c);
      }
      LostStaysLost(k1, owner1, first, c, base);
      if NoCover(k, init) {
        if c.Map? && c.size == Size2M && Covers(k1.m.ram, k1.roots[c.space], c.virt) {
          CoverLoses(k1, owner1, first, c, base);
        } else {
          CallReaches(k1, owner1, first, c, base);
        }
      }
    }
  }

  lemma NoCoverLast(k: Kernel, calls: seq<Call>, c: Call)
    ensures NoCover(k, calls + [c]) <==>
              && NoCover(k, calls)
              && (RunCalls(k, calls).Done? && c.Map? && c.size == Size2M && c.space < |RunCalls(k, calls).value.roots| ==>
                    var k1 := RunCalls(k, calls).value; !Covers(k1.m.ram, k1.roots[c.space], c.virt))
  {
    hide RunCalls, Covers;
    assert (calls + [c])[..|calls|] == calls;
  }

  lemma CoverLoses(k: Kernel, owner: Owner, first: nat, c: Call, base: set<nat>)
    requires KernelOk(k, owner, first) && DoCall(k, c).Done? && BaseClear(k.m.ram, k.roots, base)
    requires c.Map? && c.size == Size2M && c.space < |k.roots| && Covers(k.m.ram, k.roots[c.space], c.virt)
    ensures !AllReachable(DoCall(k, c).value.m, DoCall(k, c).value.roots, base)
  {
    hide MapPage, TablesOk, Follow, Held, Reachable;
    assert AreRoots(owner, k.roots);
    CoveredIsOrphaned(k.m, owner, first, k.roots, c.space, c.virt, c.phys, c.user);
  }

  /** Over every run of PML4 creations and mappings, with no 4 KiB mapping inside a 2 MiB one in force and no 2 MiB
      mapping over small pages, every frame the run took is a table that exactly one path from exactly one PML4
      reaches. */
  lemma ExactlyOnePath(k: Kernel, owner: Owner, first: nat, calls: seq<Call>, a: nat) returns (s: nat, path: seq<nat>)
    requires KernelOk(k, owner, first) && Legal(k, calls) && NoCover(k, calls) && RunCalls(k, calls).Done?
    requires a in Held(RunCalls(k, calls).value.m.frames) && a !in Held(k.m.frames)
    ensures var k' := RunCalls(k, calls).value;
            && s < |k'.roots| && |path| <= 3 && Follow(k'.m.ram, k'.roots[s], path) == a
            && (forall s': nat, path': seq<nat> ::
                  s' < |k'.roots| && |path'| <= 3 && Follow(k'.m.ram, k'.roots[s'], path') == a ==> s' == s && path' == path)
  {
    hide Follow, Legal, Refines, RunCalls, NoCover, Held;
    RunReaches(k, owner, first, calls, Held(k.m.frames));
    var owner' := RunRefines(k, owner, first, calls);
    var k' := RunCalls(k, calls).value;
    assert Reachable(k'.m.ram, k'.roots, a);
    s, path :| s < |k'.roots| && |path| <= 3 && Follow(k'.m.ram, k'.roots[s], path) == a;
    HeldNonzero(k'.m.frames, first, a);
    hide TablesOk;
    forall s': nat, path': seq<nat> | s' < |k'.roots| && |path'| <= 3 && Follow(k'.m.ram, k'.roots[s'], path') == a
      ensures s' == s && path' == path
    {
      OnePathToEachTable(k'.m, owner', first, k'.roots[s], path, k'.roots[s'], path');
    }
  }
}
