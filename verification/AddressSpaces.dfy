/** Runs of `CreateProcessPML4` and `MapMemory` over many address spaces, proved to refine a plain
    map from virtual pages to physical pages per space. */
module AddressSpaces {
  import opened Ram
  import opened Outcomes
  import opened Frames
  import opened PageFormat
  import opened Paging

  /** A new PML4 (`PageAlloc`), or one `MapMemory` call on a space created earlier. */
  datatype Call = NewSpace | Map(space: nat, virt: nat, phys: nat, size: PageSize, user: bool)

  datatype Kernel = Kernel(m: Machine, roots: seq<nat>)

  function DoCall(k: Kernel, c: Call): Outcome<Kernel> {
    match c
    case NewSpace =>
      var (m', a) :- Claim(k.m);
      Done(Kernel(m', k.roots + [a]))
    case Map(s, virt, phys, size, user) =>
      var root := if s < |k.roots| then k.roots[s] else 0;
      var (m', _) :- MapPage(k.m, root, virt, phys, size, user);
      Done(k.(m := m'))
  }

  function RunCalls(k: Kernel, calls: seq<Call>): Outcome<Kernel>
    decreases |calls|
  {
    if calls == [] then Done(k)
    else
      var k' :- RunCalls(k, calls[..|calls| - 1]);
      DoCall(k', calls[|calls| - 1])
  }

  lemma RunOne(k: Kernel, calls: seq<Call>, c: Call)
    ensures RunCalls(k, calls + [c]) ==
              match RunCalls(k, calls)
              case Done(k') => DoCall(k', c)
              case Panic => Panic
              case Fault => Fault
  {
    hide DoCall;
    assert (calls + [c])[..|calls|] == calls;
  }

  lemma {:induction false} RunConcat(k: Kernel, a: seq<Call>, b: seq<Call>)
    ensures RunCalls(k, a + b) ==
              match RunCalls(k, a)
              case Done(k') => RunCalls(k', b)
              case Panic => Panic
              case Fault => Fault
    decreases |b|
  {
    hide DoCall;
    if b == [] {
      assert a + b == a;
    } else {
      var init, c := b[..|b| - 1], b[|b| - 1];
      RunConcat(k, a, init);
      assert a + b == (a + init) + [c];
      RunOne(k, a + init, c);
      assert b == init + [c];
    }
  }

  // ---- the plain map that the tables implement

  /** What a list of calls wants of a page: the last mapping that covers it. */
  datatype Goal = Nothing | Goal(phys: nat, size: PageSize)

  function Latest(calls: seq<Call>, s: nat, v: nat): Goal
    decreases |calls|
  {
    if calls == [] then Nothing
    else
      var c := calls[|calls| - 1];
      if c.Map? && c.space == s && SamePage(v, c.virt, c.size) then Goal(c.phys, c.size)
      else Latest(calls[..|calls| - 1], s, v)
  }

  function Spaces(n: nat, calls: seq<Call>): nat
    decreases |calls|
  {
    if calls == [] then n
    else Spaces(n, calls[..|calls| - 1]) + if calls[|calls| - 1].NewSpace? then 1 else 0
  }

  ghost function LeafBefore(k: Kernel, s: nat, v: nat): Leaf {
    if s < |k.roots| then Hit(k.m.ram, k.roots[s], v, 0) else Unmapped
  }

  /** A 2 MiB mapping is in force at the address. */
  ghost predicate UnderLarge(k: Kernel, calls: seq<Call>, s: nat, v: nat) {
    match Latest(calls, s, v)
    case Goal(_, size) => size == Size2M
    case Nothing => LeafBefore(k, s, v).Leaf? && LeafBefore(k, s, v).depth == 2
  }

  /** The calls name existing spaces and no 4 KiB mapping falls inside a 2 MiB one in force. */
  ghost predicate Legal(k: Kernel, calls: seq<Call>)
    decreases |calls|
  {
    calls != [] ==>
      var init, c := calls[..|calls| - 1], calls[|calls| - 1];
      && Legal(k, init)
      && (c.Map? ==> c.space < Spaces(|k.roots|, init) && (c.size == Size4K ==> !UnderLarge(k, init, c.space, c.virt)))
  }

  ghost predicate Meets(k: Kernel, calls: seq<Call>, s: nat, v: nat, leaf: Leaf) {
    match Latest(calls, s, v)
    case Goal(phys, size) => Serves(leaf, phys, size)
    case Nothing => leaf == LeafBefore(k, s, v)
  }

  ghost predicate KernelOk(k: Kernel, owner: Owner, first: nat) {
    && TablesOk(k.m, owner, first)
    && (forall s :: 0 <= s < |k.roots| ==> IsRoot(owner, k.roots[s]))
    && (forall s, s' :: 0 <= s < s' < |k.roots| ==> k.roots[s] != k.roots[s'])
  }

  /** Every address space answers every address as the list of calls says. */
  ghost predicate Refines(k: Kernel, calls: seq<Call>, k': Kernel) {
    && |k'.roots| == Spaces(|k.roots|, calls) && k.roots <= k'.roots
    && (forall s, v: nat :: 0 <= s < |k'.roots| ==> Meets(k, calls, s, v, Hit(k'.m.ram, k'.roots[s], v, 0)))
  }

  // ---- one call

  lemma NewRootTables(m: Machine, owner: Owner, first: nat)
    requires TablesOk(m, owner, first) && Claim(m).Done?
    ensures var (m', a) := Claim(m).value;
            var owner' := owner[a := Slot(a, 0, 0)];
            a !in owner && TablesOk(m', owner', first) && Grows(m.frames, owner, m'.frames, owner')
  {
    hide Entry, Claim, Held;
    var (m', a) := Claim(m).value;
    var owner' := owner[a := Slot(a, 0, 0)];
    assert EntriesOk(m'.ram, owner') by {
      ClaimKeepsTables(m, owner, first, a, 0);
      forall t, j | t in owner' && 0 <= j < 512 ensures EntryOk(m'.ram, owner', t, j) {
        ClaimKeepsTables(m, owner, first, t, j);
        assert t != a ==> EntryOk(m.ram, owner, t, j);
      }
    }
    hide EntriesOk, Peek, FirstFree;
    ClaimSpec(m, first);
  }

  lemma NewRootWalks(m: Machine, owner: Owner, first: nat)
    requires TablesOk(m, owner, first) && Claim(m).Done?
    ensures SameWalks(m.ram, Claim(m).value.0.ram, owner)
    ensures forall v: nat :: Hit(Claim(m).value.0.ram, Claim(m).value.1, v, 0) == Unmapped
  {
    hide Entry;
    var (m', a) := Claim(m).value;
    forall t, j: nat | t in owner && j < 512 ensures Entry(m'.ram, t, j) == Entry(m.ram, t, j) {
      ClaimKeepsTables(m, owner, first, t, j);
    }
    forall r, v: nat | IsRoot(owner, r) ensures Hit(m'.ram, r, v, 0) == Hit(m.ram, r, v, 0) {
      SameTablesHit(m.ram, m'.ram, owner, r, v, 0);
    }
    forall v: nat ensures Hit(m'.ram, a, v, 0) == Unmapped {
      ClaimKeepsTables(m, owner, first, a, Index(v, 0));
    }
  }

  // ---- every run

  /** Legal calls only name spaces that exist. */
  lemma {:induction false} NoCallsForLater(k: Kernel, calls: seq<Call>, s: nat, v: nat)
    requires Legal(k, calls) && s >= Spaces(|k.roots|, calls)
    ensures Latest(calls, s, v) == Nothing
    decreases |calls|
  {
    if calls != [] {
      NoCallsForLater(k, calls[..|calls| - 1], s, v);
    }
  }

  lemma NewSpaceStep(k: Kernel, calls: seq<Call>, k1: Kernel, owner: Owner, first: nat)
    requires KernelOk(k1, owner, first) && Legal(k, calls) && Refines(k, calls, k1) && Claim(k1.m).Done?
    ensures var k2 := DoCall(k1, NewSpace).value;
            && KernelOk(k2, owner[Claim(k1.m).value.1 := Slot(Claim(k1.m).value.1, 0, 0)], first)
            && Refines(k, calls + [NewSpace], k2)
  {
    hide Entry;
    NewRootTables(k1.m, owner, first);
    NewRootWalks(k1.m, owner, first);
    var (m', a) := Claim(k1.m).value;
    var k2 := Kernel(m', k1.roots + [a]);
    var all := calls + [NewSpace];
    assert all[..|all| - 1] == calls;
    forall s, v: nat | 0 <= s < |k2.roots| ensures Meets(k, all, s, v, Hit(k2.m.ram, k2.roots[s], v, 0)) {
      assert Latest(all, s, v) == Latest(calls, s, v);
      if s < |k1.roots| {
        assert Meets(k, calls, s, v, Hit(k1.m.ram, k1.roots[s], v, 0));
        assert IsRoot(owner, k1.roots[s]);
      } else {
        NoCallsForLater(k, calls, s, v);
      }
    }
  }

  lemma RemapMeets(k: Kernel, calls: seq<Call>, k1: Kernel, owner: Owner, first: nat, c: Call, m': Machine)
    requires KernelOk(k1, owner, first) && Refines(k, calls, k1) && c.Map? && c.space < |k1.roots|
    requires Remapped(k1.m.ram, m'.ram, owner, k1.roots[c.space], c.virt, c.phys, c.size)
    ensures Refines(k, calls + [c], k1.(m := m'))
  {
    hide Entry;
    var all := calls + [c];
    assert all[..|all| - 1] == calls;
    var root := k1.roots[c.space];
    forall s, v: nat | 0 <= s < |k1.roots| ensures Meets(k, all, s, v, Hit(m'.ram, k1.roots[s], v, 0)) {
      assert Meets(k, calls, s, v, Hit(k1.m.ram, k1.roots[s], v, 0));
      assert IsRoot(owner, k1.roots[s]);
      assert k1.roots[s] == root <==> s == c.space;
    }
  }

  lemma NotUnderLarge(k: Kernel, calls: seq<Call>, k1: Kernel, c: Call)
    requires Refines(k, calls, k1) && c.Map? && Legal(k, calls + [c])
    ensures Legal(k, calls) && c.space < |k1.roots|
    ensures c.size == Size4K ==> !BigLeaf(k1.m.ram, k1.roots[c.space], c.virt)
  {
    hide Entry;
    assert (calls + [c])[..|calls|] == calls;
    assert Meets(k, calls, c.space, c.virt, Hit(k1.m.ram, k1.roots[c.space], c.virt, 0));
  }

  lemma MapStep(k: Kernel, calls: seq<Call>, k1: Kernel, owner: Owner, first: nat, c: Call) returns (owner': Owner)
    requires KernelOk(k1, owner, first) && Refines(k, calls, k1) && c.Map? && Legal(k, calls + [c])
    ensures !DoCall(k1, c).Fault?
    ensures DoCall(k1, c).Done? ==> KernelOk(DoCall(k1, c).value, owner', first) && Refines(k, calls + [c], DoCall(k1, c).value)
  {
    hide Entry, Hit, MapPage, Latest;
    NotUnderLarge(k, calls, k1, c);
    owner' := MapPageOk(k1.m, owner, first, k1.roots[c.space], c.virt, c.phys, c.size, c.user);
    if DoCall(k1, c).Done? {
      RemapMeets(k, calls, k1, owner, first, c, DoCall(k1, c).value.m);
      assert forall s :: 0 <= s < |k1.roots| ==> IsRoot(owner, k1.roots[s]);
    }
  }

  /** Over every legal run of `MapMemory` and PML4 creation, in any interleaving over any number of
      address spaces, the page tables refine the plain map: each address of each space is
      translated by the last mapping of its page in that space, and otherwise as before the run.
      The invariant that gives every table one path from one PML4 is kept throughout. */
  lemma {:induction false} RunRefines(k: Kernel, owner: Owner, first: nat, calls: seq<Call>) returns (owner': Owner)
    requires KernelOk(k, owner, first) && Legal(k, calls)
    ensures !RunCalls(k, calls).Fault?
    ensures RunCalls(k, calls).Done? ==>
              KernelOk(RunCalls(k, calls).value, owner', first) && Refines(k, calls, RunCalls(k, calls).value)
    decreases |calls|
  {
    hide Entry;
    owner' := owner;
    if calls != [] {
      var init, c := calls[..|calls| - 1], calls[|calls| - 1];
      assert calls == init + [c];
      var owner1 := RunRefines(k, owner, first, init);
      if RunCalls(k, init).Done? {
        var k1 := RunCalls(k, init).value;
        if c.Map? {
          owner' := MapStep(k, init, k1, owner1, first, c);
        } else if Claim(k1.m).Done? {
          NewSpaceStep(k, init, k1, owner1, first);
          owner' := owner1[Claim(k1.m).value.1 := Slot(Claim(k1.m).value.1, 0, 0)];
        } else {
          ClaimSpec(k1.m, first);
        }
      }
    }
  }

  /** Mapping in one address space never changes any translation in another. */
  lemma {:induction false} OtherSpacesUntouched(calls: seq<Call>, s: nat, v: nat)
    requires forall i :: 0 <= i < |calls| && calls[i].Map? ==> calls[i].space != s
    ensures Latest(calls, s, v) == Nothing
    decreases |calls|
  {
    if calls != [] {
      OtherSpacesUntouched(calls[..|calls| - 1], s, v);
    }
  }

  lemma Isolation(k: Kernel, owner: Owner, first: nat, calls: seq<Call>, s: nat, v: nat)
    requires KernelOk(k, owner, first) && Legal(k, calls) && RunCalls(k, calls).Done? && s < |k.roots|
    requires forall i :: 0 <= i < |calls| && calls[i].Map? ==> calls[i].space != s
    ensures Walk(RunCalls(k, calls).value.m.ram, k.roots[s], v) == Walk(k.m.ram, k.roots[s], v)
  {
    hide Entry;
    var owner' := RunRefines(k, owner, first, calls);
    var k' := RunCalls(k, calls).value;
    OtherSpacesUntouched(calls, s, v);
    assert Meets(k, calls, s, v, Hit(k'.m.ram, k'.roots[s], v, 0));
  }

  /** Over every legal run no address of any space is write-protected or marked no-execute, on any level. */
  lemma NothingProtected(k: Kernel, owner: Owner, first: nat, calls: seq<Call>, s: nat, v: nat)
    requires KernelOk(k, owner, first) && Legal(k, calls) && RunCalls(k, calls).Done? && s < |RunCalls(k, calls).value.roots|
    ensures PathOpen(RunCalls(k, calls).value.m.ram, RunCalls(k, calls).value.roots[s], v, 0)
  {
    hide Entry, RunCalls, Legal, Refines, EntriesOk, PathOpen;
    var owner' := RunRefines(k, owner, first, calls);
    var k' := RunCalls(k, calls).value;
    assert IsRoot(owner', k'.roots[s]);
    EveryPathOpen(k'.m.ram, owner', k'.roots[s], v, 0);
  }
}
