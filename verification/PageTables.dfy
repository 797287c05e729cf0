/** The paging code as it runs (src/mm/paging/paging.c): entries overwritten in place in the shared
    memory, loops over address ranges, proved to compute the functions of `Paging` and the runs of
    `AddressSpaces`. */
module PageTables {
  import opened Ram
  import opened Outcomes
  import opened Frames
  import opened PageFormat
  import opened Paging
  import opened AddressSpaces
  import opened ProcessSpace

  /** A range that fails part of the way fails as a whole. */
  lemma {:induction false} RangeFails(k: Kernel, s: nat, virt: nat, phys: nat, user: bool, n: nat, total: nat)
    requires n <= total && RunCalls(k, RangeCalls(s, virt, phys, user, n)).IsFailure()
    ensures RunCalls(k, RangeCalls(s, virt, phys, user, total)) == RunCalls(k, RangeCalls(s, virt, phys, user, n))
    decreases total
  {
    hide DoCall, RunCalls;
    if n < total {
      RangeFails(k, s, virt, phys, user, n, total - 1);
      var i := PAGE * (total - 1);
      RunOne(k, RangeCalls(s, virt, phys, user, total - 1), Map(s, virt + i, phys + i, Size4K, user));
    }
  }

  lemma {:induction false} WindowFails(k: Kernel, s: nat, hhdm: nat, n: nat, total: nat)
    requires n <= total && RunCalls(k, WindowCalls(s, hhdm, n)).IsFailure()
    ensures RunCalls(k, WindowCalls(s, hhdm, total)) == RunCalls(k, WindowCalls(s, hhdm, n))
    decreases total
  {
    hide DoCall, RunCalls;
    if n < total {
      WindowFails(k, s, hhdm, n, total - 1);
      WindowStep(k, s, hhdm, total);
    }
  }

  lemma WindowStep(k: Kernel, s: nat, hhdm: nat, n: nat)
    requires n > 0
    ensures RunCalls(k, WindowCalls(s, hhdm, n)) ==
              match RunCalls(k, WindowCalls(s, hhdm, n - 1))
              case Done(k1) =>
                (match DoCall(k1, Map(s, LARGE_PAGE * n, LARGE_PAGE * n, Size2M, false))
                 case Done(k2) => DoCall(k2, Map(s, hhdm + LARGE_PAGE * n, LARGE_PAGE * n, Size2M, false))
                 case Panic => Panic
                 case Fault => Fault)
              case Panic => Panic
              case Fault => Fault
  {
    hide DoCall, RunCalls;
    var i := LARGE_PAGE * n;
    var init := WindowCalls(s, hhdm, n - 1);
    RunOne(k, init, Map(s, i, i, Size2M, false));
    RunOne(k, init + [Map(s, i, i, Size2M, false)], Map(s, hhdm + i, i, Size2M, false));
  }

  lemma ProcessRun(k: Kernel, s: nat, info: PagingInfo, start: nat, end: nat, inKernelCode: bool)
    ensures var boot := [NewSpace];
            var windows := boot + WindowCalls(s, info.hhdmBase, WINDOW);
            var kernel := windows + KernelCalls(s, info);
            && RunCalls(k, boot) == DoCall(k, NewSpace)
            && RunCalls(k, windows) == Then(RunCalls(k, boot), WindowCalls(s, info.hhdmBase, WINDOW))
            && RunCalls(k, kernel) == Then(RunCalls(k, windows), KernelCalls(s, info))
            && RunCalls(k, ProcessCalls(s, info, start, end, inKernelCode))
               == Then(RunCalls(k, kernel), UserCalls(s, start, end, inKernelCode))
  {
    hide DoCall;
    var boot := [NewSpace];
    var windows := boot + WindowCalls(s, info.hhdmBase, WINDOW);
    var kernel := windows + KernelCalls(s, info);
    RunOne(k, [], NewSpace);
    assert [] + [NewSpace] == boot;
    RunConcat(k, boot, WindowCalls(s, info.hhdmBase, WINDOW));
    RunConcat(k, windows, KernelCalls(s, info));
    RunConcat(k, kernel, UserCalls(s, start, end, inKernelCode));
  }

  ghost function Then(o: Outcome<Kernel>, calls: seq<Call>): Outcome<Kernel> {
    match o
    case Done(k) => RunCalls(k, calls)
    case Panic => Panic
    case Fault => Fault
  }

  class PageTables {
    const alloc: FrameAllocator
    var info: PagingInfo // GlobalPagingInfo
    ghost var roots: seq<nat> // the PML4s created so far

    constructor (alloc: FrameAllocator, info: PagingInfo)
      ensures this.alloc == alloc && this.info == info && roots == []
    {
      this.alloc := alloc;
      this.info := info;
      this.roots := [];
    }

    ghost function Spaces(): Kernel
      reads this, alloc, alloc.frameList
    {
      Kernel(alloc.State(), roots)
    }

    method GetEntryNextLevel(currLevel: nat, entry: nat) returns (o: Outcome<nat>)
      requires alloc.Valid() && entry < 512
      modifies alloc`ram, alloc.frameList
      ensures alloc.Valid()
      ensures match NextLevel(old(alloc.State()), currLevel, entry)
              case Done((m, t)) => o == Done(t) && alloc.State() == m
              case Panic => o == Panic
              case Fault => o == Fault
    {
      assert !Claim(alloc.State()).Fault?;
      hide Entry, Claim, SetEntry;
      if currLevel == 0 {
        return Done(0);
      }
      var e := Entry(alloc.ram, currLevel, entry);
      if !e.present {
        var newalloc :- alloc.PageAlloc();
        e := Entry(alloc.ram, currLevel, entry);
        e := e.(frame := newalloc / PAGE % FRAME_LIMIT);
        e := e.(present := true);
        e := e.(writable := true);
        alloc.ram := SetEntry(alloc.ram, currLevel, entry, e);
        return Done(newalloc);
      }
      return Done(TableOf(e));
    }

    method MapMemory(tgtPml4: nat, virt: nat, phys: nat, size: PageSize, user: bool) returns (o: Outcome<bool>)
      requires alloc.Valid()
      modifies alloc`ram, alloc.frameList
      ensures alloc.Valid()
      ensures match MapPage(old(alloc.State()), tgtPml4, virt, phys, size, user)
              case Done((m, ok)) => o == Done(ok) && alloc.State() == m
              case Panic => o == Panic
              case Fault => o == Fault
    {
      hide Entry, NextLevel, SetEntry, Index;
      var pml4Entry, pdptEntry := Index(virt, 0), Index(virt, 1);
      var pdEntry, ptEntry := Index(virt, 2), Index(virt, 3);
      var pdpt :- GetEntryNextLevel(tgtPml4, pml4Entry);
      var t, index;
      if size == Size2M {
        t :- GetEntryNextLevel(pdpt, pdptEntry);
        index := pdEntry;
      } else {
        var pd :- GetEntryNextLevel(pdpt, pdptEntry);
        t :- GetEntryNextLevel(pd, pdEntry);
        index := ptEntry;
      }
      if t == 0 {
        return Done(false);
      }
      var e := Entry(alloc.ram, t, index);
      e := e.(present := true);
      e := e.(writable := true);
      e := e.(frame := phys / PAGE % FRAME_LIMIT);
      if size == Size2M {
        e := e.(large := true);
      }
      if user {
        e := e.(user := true);
      }
      alloc.ram := SetEntry(alloc.ram, t, index, e);
      return Done(true);
    }

    /** The loop that maps both windows. */
    method MapWindows(newpml: nat, ghost s: nat) returns (o: Outcome<()>)
      requires alloc.Valid() && s < |roots| && roots[s] == newpml
      modifies alloc`ram, alloc.frameList
      ensures alloc.Valid()
      ensures match RunCalls(old(Spaces()), WindowCalls(s, info.hhdmBase, WINDOW))
              case Done(k) => o.Done? && Spaces() == k
              case Panic => o == Panic
              case Fault => o == Fault
    {
      hide MapPage, WindowCalls, RunCalls;
      ghost var n := 0;
      var i := 0x20_0000;
      assert RunCalls(Spaces(), WindowCalls(s, info.hhdmBase, 0)) == Done(Spaces()) by {
        NoCalls(Spaces(), s, info.hhdmBase);
      }
      while i < 0x4000_0000
        invariant i == LARGE_PAGE * (n + 1) && 0 <= n <= WINDOW
        invariant alloc.Valid()
        invariant RunCalls(old(Spaces()), WindowCalls(s, info.hhdmBase, n)) == Done(Spaces())
        decreases 0x4000_0000 - i
      {
        WindowStep(old(Spaces()), s, info.hhdmBase, n + 1);
        var first := MapMemory(newpml, i, i, Size2M, false);
        if first.IsFailure() {
          WindowFails(old(Spaces()), s, info.hhdmBase, n + 1, WINDOW);
          return first.PropagateFailure();
        }
        var second := MapMemory(newpml, info.hhdmBase + i, i, Size2M, false);
        if second.IsFailure() {
          WindowFails(old(Spaces()), s, info.hhdmBase, n + 1, WINDOW);
          return second.PropagateFailure();
        }
        i := i + 0x20_0000;
        n := n + 1;
      }
      return Done(());
    }

    /** A loop that maps a range page by page: `for (i = 0; i < size; i += 4096)`. */
    method MapRange(newpml: nat, ghost s: nat, virt: nat, phys: nat, size: int, user: bool) returns (o: Outcome<()>)
      requires alloc.Valid() && s < |roots| && roots[s] == newpml && PAGE * Pages(size) < WORD_LIMIT
      modifies alloc`ram, alloc.frameList
      ensures alloc.Valid()
      ensures match RunCalls(old(Spaces()), RangeCalls(s, virt, phys, user, Pages(size)))
              case Done(k) => o.Done? && Spaces() == k
              case Panic => o == Panic
              case Fault => o == Fault
    {
      hide MapPage, RunCalls;
      ghost var n := 0;
      var i := 0;
      assert RunCalls(Spaces(), []) == Done(Spaces()) by {
        NoCalls(Spaces(), s, 0);
      }
      while i < size
        invariant i == PAGE * n && 0 <= n <= Pages(size)
        invariant alloc.Valid()
        invariant RunCalls(old(Spaces()), RangeCalls(s, virt, phys, user, n)) == Done(Spaces())
        decreases size - i
      {
        RunOne(old(Spaces()), RangeCalls(s, virt, phys, user, n), Map(s, virt + i, phys + i, Size4K, user));
        var r := MapMemory(newpml, virt + i, phys + i, Size4K, user);
        if r.IsFailure() {
          RangeFails(old(Spaces()), s, virt, phys, user, n + 1, Pages(size));
          return r.PropagateFailure();
        }
        i := i + PAGE;
        n := n + 1;
      }
      return Done(());
    }

    method CreateProcessPML4(start: nat, end: nat, inKernelCode: bool) returns (o: Outcome<nat>)
      requires alloc.Valid() && NoWrap(info, start, end, inKernelCode)
      modifies this`roots, alloc`ram, alloc.frameList
      ensures alloc.Valid()
      ensures match RunCalls(old(Spaces()), ProcessCalls(|old(roots)|, info, start, end, inKernelCode))
              case Done(k) => |roots| == |old(roots)| + 1 && o == Done(roots[|old(roots)|]) && Spaces() == k
              case Panic => o == Panic
              case Fault => o == Fault
    {
      hide RunCalls, RangeCalls, WindowCalls, ProcessCalls, Claim, Pages;
      ghost var s := |roots|;
      ProcessRun(Spaces(), s, info, start, end, inKernelCode);
      ClaimNeverFaults(alloc.State());
      var newpml :- alloc.PageAlloc();
      roots := roots + [newpml];
      assert DoCall(old(Spaces()), NewSpace) == Done(Spaces());
      hide DoCall;
      var windows := MapWindows(newpml, s);
      if windows.IsFailure() {
        return windows.PropagateFailure();
      }
      var kernel := MapRange(newpml, s, info.kernelVirtBase, info.kernelPhysBase, info.kernelSize, false);
      if kernel.IsFailure() {
        return kernel.PropagateFailure();
      }
      if !inKernelCode {
        var user := MapRange(newpml, s, start, start, end - start, true);
        if user.IsFailure() {
          return user.PropagateFailure();
        }
      } else {
        NoCalls(Spaces(), s, 0);
      }
      return Done(newpml);
    }
  }

  lemma ClaimNeverFaults(m: Machine)
    ensures !Claim(m).Fault?
  {
  }

  lemma NoCalls(k: Kernel, s: nat, hhdm: nat)
    ensures RunCalls(k, []) == Done(k) && WindowCalls(s, hhdm, 0) == []
  {
  }
}
