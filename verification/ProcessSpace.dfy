/** `CreateProcessPML4` (src/mm/paging/paging.c): the address space a task starts with. */
module ProcessSpace {
  import opened Ram
  import opened Outcomes
  import opened Frames
  import opened PageFormat
  import opened Paging
  import opened AddressSpaces
  import Arith

  /** The part of `GlobalPagingInfo` that task spaces are built from. */
  datatype PagingInfo = PagingInfo(hhdmBase: nat, kernelSize: nat, kernelPhysBase: nat, kernelVirtBase: nat)

  const WINDOW: nat := 511 // 2 MiB pages from 2 MiB up to 1 GiB

  /** Iterations of a loop that steps by a page up to a size. */
  function Pages(size: int): nat {
    if size <= 0 then 0 else (size + PAGE - 1) / PAGE
  }

  /** The 64-bit counters of the two page loops do not wrap; on exactly the other inputs a loop never ends. */
  predicate NoWrap(info: PagingInfo, start: nat, end: nat, inKernelCode: bool) {
    PAGE * Pages(info.kernelSize) < WORD_LIMIT && (!inKernelCode ==> start + PAGE * Pages(end - start) < WORD_LIMIT)
  }

  // ---- the calls it makes

  function WindowCalls(s: nat, hhdm: nat, n: nat): seq<Call>
    decreases s, n
  {
    if n == 0 then []
    else
      var i := LARGE_PAGE * n;
      WindowCalls(s, hhdm, n - 1) + [Map(s, i, i, Size2M, false)] + [Map(s, hhdm + i, i, Size2M, false)]
  }

  function RangeCalls(s: nat, virt: nat, phys: nat, user: bool, n: nat): seq<Call> {
    if n == 0 then []
    else
      var i := PAGE * (n - 1);
      RangeCalls(s, virt, phys, user, n - 1) + [Map(s, virt + i, phys + i, Size4K, user)]
  }

  function KernelCalls(s: nat, info: PagingInfo): seq<Call> {
    RangeCalls(s, info.kernelVirtBase, info.kernelPhysBase, false, Pages(info.kernelSize))
  }

  function UserCalls(s: nat, start: nat, end: nat, inKernelCode: bool): seq<Call> {
    if inKernelCode then [] else RangeCalls(s, start, start, true, Pages(end - start))
  }

  function ProcessCalls(s: nat, info: PagingInfo, start: nat, end: nat, inKernelCode: bool): seq<Call> {
    [NewSpace] + WindowCalls(s, info.hhdmBase, WINDOW) + KernelCalls(s, info) + UserCalls(s, start, end, inKernelCode)
  }

  // ---- what those calls want, in closed form

  lemma LowAdd(x: nat, y: nat)
    requires Low(x) + y < VIRT_LIMIT
    ensures Low(x + y) == Low(x) + y
  {
    Arith.DivMod(x + y, VIRT_LIMIT, x / VIRT_LIMIT, Low(x) + y);
  }

  lemma RegionOfPage(virt: nat, j: nat)
    requires Low(virt) / PAGE + j < VIRT_LIMIT / PAGE
    ensures Region(virt + PAGE * j, 4) == Low(virt) / PAGE + j
  {
    LowAdd(virt, PAGE * j);
    Arith.DivMod(Low(virt) + PAGE * j, PAGE, Low(virt) / PAGE + j, Low(virt) % PAGE);
  }

  lemma RegionOfLarge(virt: nat, j: nat)
    requires Low(virt) / LARGE_PAGE + j < VIRT_LIMIT / LARGE_PAGE
    ensures Region(virt + LARGE_PAGE * j, 3) == Low(virt) / LARGE_PAGE + j
  {
    LowAdd(virt, LARGE_PAGE * j);
    Arith.DivMod(Low(virt) + LARGE_PAGE * j, LARGE_PAGE, Low(virt) / LARGE_PAGE + j, Low(virt) % LARGE_PAGE);
  }

  lemma LatestOne(calls: seq<Call>, c: Call, s: nat, v: nat)
    ensures Latest(calls + [c], s, v) ==
              if c.Map? && c.space == s && SamePage(v, c.virt, c.size) then Goal(c.phys, c.size) else Latest(calls, s, v)
  {
    assert (calls + [c])[..|calls|] == calls;
  }

  lemma {:induction false} LatestConcat(a: seq<Call>, b: seq<Call>, s: nat, v: nat)
    ensures Latest(a + b, s, v) == if Latest(b, s, v) == Nothing then Latest(a, s, v) else Latest(b, s, v)
    decreases |b|
  {
    if b == [] {
      assert a + b == a;
    } else {
      var init, c := b[..|b| - 1], b[|b| - 1];
      LatestConcat(a, init, s, v);
      assert a + b == (a + init) + [c];
      LatestOne(a + init, c, s, v);
    }
  }

  lemma {:induction false} RangeLatest(s: nat, virt: nat, phys: nat, user: bool, n: nat, v: nat)
    requires Low(virt) / PAGE + n <= VIRT_LIMIT / PAGE
    ensures var base, p := Low(virt) / PAGE, Region(v, 4);
            Latest(RangeCalls(s, virt, phys, user, n), s, v) ==
              if base <= p < base + n then Goal(phys + PAGE * (p - base), Size4K) else Nothing
    decreases n
  {
    hide Low;
    if n > 0 {
      RangeLatest(s, virt, phys, user, n - 1, v);
      RegionOfPage(virt, n - 1);
      var i := PAGE * (n - 1);
      LatestOne(RangeCalls(s, virt, phys, user, n - 1), Map(s, virt + i, phys + i, Size4K, user), s, v);
    }
  }

  lemma {:induction false} WindowLatest(s: nat, hhdm: nat, n: nat, v: nat)
    requires n <= WINDOW <= Low(hhdm) / LARGE_PAGE && Low(hhdm) / LARGE_PAGE + n < VIRT_LIMIT / LARGE_PAGE
    ensures var h, g := Low(hhdm) / LARGE_PAGE, Region(v, 3);
            Latest(WindowCalls(s, hhdm, n), s, v) ==
              if 1 <= g <= n then Goal(LARGE_PAGE * g, Size2M)
              else if 1 <= g - h <= n then Goal(LARGE_PAGE * (g - h), Size2M)
              else Nothing
    decreases n
  {
    assert Low(0) == 0;
    hide Low, Latest;
    if n > 0 {
      WindowLatest(s, hhdm, n - 1, v);
      var i := LARGE_PAGE * n;
      RegionOfLarge(0, n);
      RegionOfLarge(hhdm, n);
      var init := WindowCalls(s, hhdm, n - 1);
      var c1, c2 := Map(s, i, i, Size2M, false), Map(s, hhdm + i, i, Size2M, false);
      LatestOne(init, c1, s, v);
      LatestOne(init + [c1], c2, s, v);
    }
  }

  // ---- the calls are legal when the windows are disjoint

  /** The pages base .. base+n-1 share no 2 MiB region with the two windows. */
  ghost predicate AvoidsWindows(hhdm: nat, base: nat, n: nat) {
    forall p :: base <= p < base + n ==> !(1 <= p / 512 <= WINDOW) && !(1 <= p / 512 - Low(hhdm) / LARGE_PAGE <= WINDOW)
  }

  /** The windows do not overlap, nothing wraps around the 48-bit space, and the 4 KiB ranges stay
      out of the 2 MiB regions of the windows. */
  ghost predicate Disjoint(info: PagingInfo, start: nat, end: nat, inKernelCode: bool) {
    && WINDOW <= Low(info.hhdmBase) / LARGE_PAGE
    && Low(info.hhdmBase) / LARGE_PAGE + WINDOW < VIRT_LIMIT / LARGE_PAGE
    && Low(info.kernelVirtBase) / PAGE + Pages(info.kernelSize) <= VIRT_LIMIT / PAGE
    && AvoidsWindows(info.hhdmBase, Low(info.kernelVirtBase) / PAGE, Pages(info.kernelSize))
    && (!inKernelCode ==>
          && Low(start) / PAGE + Pages(end - start) <= VIRT_LIMIT / PAGE
          && AvoidsWindows(info.hhdmBase, Low(start) / PAGE, Pages(end - start)))
  }

  ghost predicate NoLargeOn(k: Kernel, calls: seq<Call>, s: nat, base: nat, n: nat) {
    forall v: nat :: base <= Region(v, 4) < base + n ==> !UnderLarge(k, calls, s, v)
  }

  lemma LegalOne(k: Kernel, calls: seq<Call>, c: Call)
    requires Legal(k, calls) && c.Map? && c.space < Spaces(|k.roots|, calls)
    requires c.size == Size4K ==> !UnderLarge(k, calls, c.space, c.virt)
    ensures Legal(k, calls + [c]) && Spaces(|k.roots|, calls + [c]) == Spaces(|k.roots|, calls)
  {
    assert (calls + [c])[..|calls|] == calls;
  }

  lemma RangeKeepsClear(k: Kernel, pre: seq<Call>, s: nat, virt: nat, phys: nat, user: bool, n: nat, v: nat)
    requires Low(virt) / PAGE + n <= VIRT_LIMIT / PAGE
    requires !UnderLarge(k, pre, s, v)
    ensures !UnderLarge(k, pre + RangeCalls(s, virt, phys, user, n), s, v)
  {
    hide Entry;
    LatestConcat(pre, RangeCalls(s, virt, phys, user, n), s, v);
    RangeLatest(s, virt, phys, user, n, v);
  }

  lemma {:induction false} RangeLegal(k: Kernel, pre: seq<Call>, s: nat, virt: nat, phys: nat, user: bool, n: nat)
    requires Legal(k, pre) && s < Spaces(|k.roots|, pre)
    requires Low(virt) / PAGE + n <= VIRT_LIMIT / PAGE
    requires NoLargeOn(k, pre, s, Low(virt) / PAGE, n)
    ensures Legal(k, pre + RangeCalls(s, virt, phys, user, n))
    ensures Spaces(|k.roots|, pre + RangeCalls(s, virt, phys, user, n)) == Spaces(|k.roots|, pre)
    decreases n
  {
    hide Low, Region, Hit, Latest;
    var calls := RangeCalls(s, virt, phys, user, n);
    if n == 0 {
      assert pre + calls == pre;
    } else {
      var i := PAGE * (n - 1);
      var init, c := RangeCalls(s, virt, phys, user, n - 1), Map(s, virt + i, phys + i, Size4K, user);
      assert Legal(k, pre + init) && Spaces(|k.roots|, pre + init) == Spaces(|k.roots|, pre) by {
        RangeLegal(k, pre, s, virt, phys, user, n - 1);
      }
      assert !UnderLarge(k, pre + init, s, c.virt) by {
        RegionOfPage(virt, n - 1);
        RangeKeepsClear(k, pre, s, virt, phys, user, n - 1, c.virt);
      }
      LegalOne(k, pre + init, c);
      assert pre + calls == (pre + init) + [c];
    }
  }

  lemma {:induction false} WindowLegal(k: Kernel, pre: seq<Call>, s: nat, hhdm: nat, n: nat)
    requires Legal(k, pre) && s < Spaces(|k.roots|, pre)
    ensures Legal(k, pre + WindowCalls(s, hhdm, n))
    ensures Spaces(|k.roots|, pre + WindowCalls(s, hhdm, n)) == Spaces(|k.roots|, pre)
    decreases n
  {
    hide Hit, Latest;
    var calls := WindowCalls(s, hhdm, n);
    if n == 0 {
      assert pre + calls == pre;
    } else {
      var i := LARGE_PAGE * n;
      var init := WindowCalls(s, hhdm, n - 1);
      var c1, c2 := Map(s, i, i, Size2M, false), Map(s, hhdm + i, i, Size2M, false);
      WindowLegal(k, pre, s, hhdm, n - 1);
      LegalOne(k, pre + init, c1);
      LegalOne(k, pre + init + [c1], c2);
      assert pre + calls == pre + init + [c1] + [c2];
    }
  }

  /** The goals of the first two parts of the calls. */
  lemma BootLatest(k: Kernel, s: nat, hhdm: nat, v: nat)
    requires s == |k.roots|
    requires WINDOW <= Low(hhdm) / LARGE_PAGE && Low(hhdm) / LARGE_PAGE + WINDOW < VIRT_LIMIT / LARGE_PAGE
    ensures Latest([NewSpace] + WindowCalls(s, hhdm, WINDOW), s, v) == Latest(WindowCalls(s, hhdm, WINDOW), s, v)
    ensures Region(v, 4) / 512 == Region(v, 3)
  {
    LatestConcat([NewSpace], WindowCalls(s, hhdm, WINDOW), s, v);
    LatestOne([], NewSpace, s, v);
    assert [] + [NewSpace] == [NewSpace];
    RegionStep(v, 3);
  }

  lemma ProcessLegal(k: Kernel, info: PagingInfo, start: nat, end: nat, inKernelCode: bool)
    requires Disjoint(info, start, end, inKernelCode)
    ensures Legal(k, ProcessCalls(|k.roots|, info, start, end, inKernelCode))
  {
    hide Entry;
    var s := |k.roots|;
    var created: seq<Call> := [NewSpace];
    assert created[..0] == [];
    assert Legal(k, created) && Spaces(s, created) == s + 1;
    var boot := created + WindowCalls(s, info.hhdmBase, WINDOW);
    WindowLegal(k, created, s, info.hhdmBase, WINDOW);
    forall v: nat, base: nat, n: nat | AvoidsWindows(info.hhdmBase, base, n) && base <= Region(v, 4) < base + n
      ensures !UnderLarge(k, boot, s, v)
    {
      BootLatest(k, s, info.hhdmBase, v);
      WindowLatest(s, info.hhdmBase, WINDOW, v);
    }
    var kernel := boot + KernelCalls(s, info);
    var n := Pages(info.kernelSize);
    RangeLegal(k, boot, s, info.kernelVirtBase, info.kernelPhysBase, false, n);
    if inKernelCode {
      assert kernel + [] == kernel;
    } else {
      forall v: nat | Low(start) / PAGE <= Region(v, 4) < Low(start) / PAGE + Pages(end - start)
        ensures !UnderLarge(k, kernel, s, v)
      {
        RangeKeepsClear(k, boot, s, info.kernelVirtBase, info.kernelPhysBase, false, n, v);
      }
      RangeLegal(k, kernel, s, start, start, true, Pages(end - start));
    }
  }

  // ---- the address space, exactly

  /** The four parts of a task's space, in page numbers: its own pages, the kernel's pages, and the
      2 MiB page at which the copy of the window starts. */
  datatype Plan = Plan(user: nat, userPages: nat, start: nat, kernel: nat, kernelPages: nat, kernelPhys: nat, hhdm: nat)

  function PlanOf(info: PagingInfo, start: nat, end: nat, inKernelCode: bool): Plan {
    Plan(Low(start) / PAGE, if inKernelCode then 0 else Pages(end - start), start,
         Low(info.kernelVirtBase) / PAGE, Pages(info.kernelSize), info.kernelPhysBase,
         Low(info.hhdmBase) / LARGE_PAGE)
  }

  /** The intended translation: the task's identity range, then the kernel image, then the identity
      window from 2 MiB to 1 GiB and its copy at the higher-half base; nothing else. */
  ghost function Intended(plan: Plan, v: nat): Translation {
    var p, g := Region(v, 4), Region(v, 3);
    if plan.user <= p < plan.user + plan.userPages then
      To((plan.start / PAGE + (p - plan.user)) % FRAME_LIMIT * PAGE + v % PAGE)
    else if plan.kernel <= p < plan.kernel + plan.kernelPages then
      To((plan.kernelPhys / PAGE + (p - plan.kernel)) % FRAME_LIMIT * PAGE + v % PAGE)
    else if 1 <= g <= WINDOW then To(LARGE_PAGE * g + v % LARGE_PAGE)
    else if 1 <= g - plan.hhdm <= WINDOW then To(LARGE_PAGE * (g - plan.hhdm) + v % LARGE_PAGE)
    else NotMapped
  }

  lemma LowParts(v: nat)
    ensures Low(v) == LARGE_PAGE * Region(v, 3) + v % LARGE_PAGE
    ensures Low(v) == PAGE * Region(v, 4) + v % PAGE
  {
    var h := v / VIRT_LIMIT;
    Arith.DivMod(v, LARGE_PAGE, h * (VIRT_LIMIT / LARGE_PAGE) + Region(v, 3), Low(v) % LARGE_PAGE);
    Arith.DivMod(v, PAGE, h * (VIRT_LIMIT / PAGE) + Region(v, 4), Low(v) % PAGE);
  }

  /** The goal that the whole list of calls leaves for an address of the new space. */
  ghost function PlanGoal(plan: Plan, p: nat, g: nat): Goal {
    if plan.user <= p < plan.user + plan.userPages then Goal(plan.start + PAGE * (p - plan.user), Size4K)
    else if plan.kernel <= p < plan.kernel + plan.kernelPages then Goal(plan.kernelPhys + PAGE * (p - plan.kernel), Size4K)
    else if 1 <= g <= WINDOW then Goal(LARGE_PAGE * g, Size2M)
    else if 1 <= g - plan.hhdm <= WINDOW then Goal(LARGE_PAGE * (g - plan.hhdm), Size2M)
    else Nothing
  }

  lemma ProcessLatest(k: Kernel, info: PagingInfo, start: nat, end: nat, inKernelCode: bool, v: nat)
    requires Disjoint(info, start, end, inKernelCode)
    ensures Latest(ProcessCalls(|k.roots|, info, start, end, inKernelCode), |k.roots|, v)
         == PlanGoal(PlanOf(info, start, end, inKernelCode), Region(v, 4), Region(v, 3))
  {
    var s := |k.roots|;
    var boot := [NewSpace] + WindowCalls(s, info.hhdmBase, WINDOW);
    BootLatest(k, s, info.hhdmBase, v);
    WindowLatest(s, info.hhdmBase, WINDOW, v);
    LatestConcat(boot, KernelCalls(s, info), s, v);
    RangeLatest(s, info.kernelVirtBase, info.kernelPhysBase, false, Pages(info.kernelSize), v);
    LatestConcat(boot + KernelCalls(s, info), UserCalls(s, start, end, inKernelCode), s, v);
    if !inKernelCode {
      RangeLatest(s, start, start, true, Pages(end - start), v);
    }
  }

  lemma RangeTranslates(ram: Memory, root: nat, phys: nat, i: nat, v: nat)
    requires Serves(Hit(ram, root, v, 0), phys + PAGE * i, Size4K)
    ensures Walk(ram, root, v) == To((phys / PAGE + i) % FRAME_LIMIT * PAGE + v % PAGE)
  {
    hide Entry;
    Arith.DivMod(phys + PAGE * i, PAGE, phys / PAGE + i, phys % PAGE);
    SmallPageTranslates(ram, root, phys + PAGE * i, v);
  }

  lemma WindowTranslates(ram: Memory, root: nat, g: nat, v: nat)
    requires Serves(Hit(ram, root, v, 0), LARGE_PAGE * g, Size2M) && g <= WINDOW
    ensures Walk(ram, root, v) == To(LARGE_PAGE * g + v % LARGE_PAGE)
  {
    hide Entry;
    assert LARGE_PAGE * g % LARGE_PAGE == 0 && LARGE_PAGE * g % PAGE == 0 by {
      Arith.DivMod(LARGE_PAGE * g, LARGE_PAGE, g, 0);
      Arith.DivMod(LARGE_PAGE * g, PAGE, 512 * g, 0);
    }
    LargePageTranslates(ram, root, LARGE_PAGE * g, v);
  }

  /** `CreateProcessPML4` builds exactly the intended address space, for every address, and leaves
      every other space as it was. */
  lemma ProcessSpaceExact(k: Kernel, owner: Owner, first: nat, info: PagingInfo, start: nat, end: nat, inKernelCode: bool,
                          k': Kernel, v: nat)
    requires KernelOk(k, owner, first) && Disjoint(info, start, end, inKernelCode)
    requires RunCalls(k, ProcessCalls(|k.roots|, info, start, end, inKernelCode)) == Done(k')
    ensures |k'.roots| == |k.roots| + 1 && k.roots <= k'.roots
    ensures Walk(k'.m.ram, k'.roots[|k.roots|], v) == Intended(PlanOf(info, start, end, inKernelCode), v)
    ensures forall s :: 0 <= s < |k.roots| ==> Walk(k'.m.ram, k.roots[s], v) == Walk(k.m.ram, k.roots[s], v)
  {
    hide Entry;
    var s := |k.roots|;
    var calls := ProcessCalls(s, info, start, end, inKernelCode);
    ProcessLegal(k, info, start, end, inKernelCode);
    var owner' := RunRefines(k, owner, first, calls);
    ProcessSpaces(k, info, start, end, inKernelCode);
    ProcessTranslates(k, info, start, end, inKernelCode, k', v);
    forall o | 0 <= o < s ensures Walk(k'.m.ram, k.roots[o], v) == Walk(k.m.ram, k.roots[o], v) {
      ProcessOwnSpace(s, info, start, end, inKernelCode);
      Isolation(k, owner, first, calls, o, v);
    }
  }

  lemma ProcessSpaces(k: Kernel, info: PagingInfo, start: nat, end: nat, inKernelCode: bool)
    requires Disjoint(info, start, end, inKernelCode)
    ensures Spaces(|k.roots|, ProcessCalls(|k.roots|, info, start, end, inKernelCode)) == |k.roots| + 1
  {
    var s := |k.roots|;
    var calls := ProcessCalls(s, info, start, end, inKernelCode);
    ProcessOwnSpace(s, info, start, end, inKernelCode);
    OneNewSpace(s, calls);
  }

  lemma {:induction false} OneNewSpace(n: nat, calls: seq<Call>)
    requires calls != [] && calls[0] == NewSpace && forall i :: 0 < i < |calls| ==> calls[i].Map?
    ensures Spaces(n, calls) == n + 1
    decreases |calls|
  {
    if |calls| == 1 {
      assert calls[..0] == [];
    } else {
      OneNewSpace(n, calls[..|calls| - 1]);
    }
  }

  lemma {:induction false} RangeOwnSpace(s: nat, virt: nat, phys: nat, user: bool, n: nat)
    ensures forall c :: c in RangeCalls(s, virt, phys, user, n) ==> c.Map? && c.space == s
  {
    if n > 0 {
      RangeOwnSpace(s, virt, phys, user, n - 1);
    }
  }

  lemma {:induction false} WindowOwnSpace(s: nat, hhdm: nat, n: nat)
    ensures forall c :: c in WindowCalls(s, hhdm, n) ==> c.Map? && c.space == s
  {
    if n > 0 {
      WindowOwnSpace(s, hhdm, n - 1);
    }
  }

  lemma ProcessOwnSpace(s: nat, info: PagingInfo, start: nat, end: nat, inKernelCode: bool)
    ensures var calls := ProcessCalls(s, info, start, end, inKernelCode);
            && |calls| > 0 && calls[0] == NewSpace
            && forall i :: 0 < i < |calls| ==> calls[i].Map? && calls[i].space == s
  {
    var w := WindowCalls(s, info.hhdmBase, WINDOW);
    var kc, uc := KernelCalls(s, info), UserCalls(s, start, end, inKernelCode);
    WindowOwnSpace(s, info.hhdmBase, WINDOW);
    RangeOwnSpace(s, info.kernelVirtBase, info.kernelPhysBase, false, Pages(info.kernelSize));
    RangeOwnSpace(s, start, start, true, Pages(end - start));
    var calls := ProcessCalls(s, info, start, end, inKernelCode);
    assert calls == [NewSpace] + (w + kc + uc);
    forall i | 0 < i < |calls| ensures calls[i].Map? && calls[i].space == s {
      assert calls[i] == (w + kc + uc)[i - 1];
      assert calls[i] in w || calls[i] in kc || calls[i] in uc;
    }
  }

  ghost predicate GoalMet(goal: Goal, leaf: Leaf) {
    match goal
    case Goal(phys, size) => Serves(leaf, phys, size)
    case Nothing => leaf == Unmapped
  }

  lemma GoalTranslates(plan: Plan, ram: Memory, root: nat, v: nat)
    requires GoalMet(PlanGoal(plan, Region(v, 4), Region(v, 3)), Hit(ram, root, v, 0))
    ensures Walk(ram, root, v) == Intended(plan, v)
  {
    hide Entry;
    var p, g := Region(v, 4), Region(v, 3);
    if plan.user <= p < plan.user + plan.userPages {
      RangeTranslates(ram, root, plan.start, p - plan.user, v);
    } else if plan.kernel <= p < plan.kernel + plan.kernelPages {
      RangeTranslates(ram, root, plan.kernelPhys, p - plan.kernel, v);
    } else if 1 <= g <= WINDOW {
      WindowTranslates(ram, root, g, v);
    } else if 1 <= g - plan.hhdm <= WINDOW {
      WindowTranslates(ram, root, g - plan.hhdm, v);
    }
  }

  lemma ProcessTranslates(k: Kernel, info: PagingInfo, start: nat, end: nat, inKernelCode: bool, k': Kernel, v: nat)
    requires Disjoint(info, start, end, inKernelCode)
    requires Refines(k, ProcessCalls(|k.roots|, info, start, end, inKernelCode), k') && |k'.roots| > |k.roots|
    ensures Walk(k'.m.ram, k'.roots[|k.roots|], v) == Intended(PlanOf(info, start, end, inKernelCode), v)
  {
    hide Entry;
    var s := |k.roots|;
    var calls := ProcessCalls(s, info, start, end, inKernelCode);
    assert Meets(k, calls, s, v, Hit(k'.m.ram, k'.roots[s], v, 0));
    ProcessLatest(k, info, start, end, inKernelCode, v);
    GoalTranslates(PlanOf(info, start, end, inKernelCode), k'.m.ram, k'.roots[s], v);
  }

  /** The parts do not get in each other's way: a task below 2^48 finds its own range mapped to itself, the low window
      is an identity mapping, and its copy leads to the same memory. */
  lemma IdentityParts(info: PagingInfo, start: nat, end: nat, inKernelCode: bool, v: nat)
    requires Disjoint(info, start, end, inKernelCode)
    ensures var plan := PlanOf(info, start, end, inKernelCode);
            && (start < VIRT_LIMIT && plan.user <= Region(v, 4) < plan.user + plan.userPages ==> Intended(plan, v) == To(Low(v)))
            && (1 <= Region(v, 3) <= WINDOW ==> Intended(plan, v) == To(Low(v)))
            && (Low(info.hhdmBase) % LARGE_PAGE == 0 && 1 <= Region(v, 3) - plan.hhdm <= WINDOW ==>
                  Intended(plan, v) == To(Low(v) - Low(info.hhdmBase)))
  {
    var plan := PlanOf(info, start, end, inKernelCode);
    LowParts(v);
    RegionStep(v, 3);
    var p, g := Region(v, 4), Region(v, 3);
    assert p / 512 == g && p < FRAME_LIMIT;
    if start < VIRT_LIMIT && plan.user <= p < plan.user + plan.userPages {
      assert Low(start) == start;
    } else if 1 <= g <= WINDOW || 1 <= g - plan.hhdm <= WINDOW {
      WindowsApart(info, start, end, inKernelCode, p);
    }
  }

  /** Pages in the 2 MiB regions of the windows belong to no 4 KiB range. */
  lemma WindowsApart(info: PagingInfo, start: nat, end: nat, inKernelCode: bool, p: nat)
    requires Disjoint(info, start, end, inKernelCode)
    requires 1 <= p / 512 <= WINDOW || 1 <= p / 512 - Low(info.hhdmBase) / LARGE_PAGE <= WINDOW
    ensures var plan := PlanOf(info, start, end, inKernelCode);
            !(plan.user <= p < plan.user + plan.userPages) && !(plan.kernel <= p < plan.kernel + plan.kernelPages)
  {
    hide Low;
  }

  // ---- the address space, from the arguments alone

  /** The translation a task space should have, by addresses (their low 48 bits): the pages of start..end go to themselves
      unless the task runs in kernel code, the pages of the kernel image to where it lies, 2 MiB to 1 GiB to itself, the same
      range above hhdm_base to the same memory, and nothing else is mapped. */
  ghost function Wanted(info: PagingInfo, start: nat, end: nat, inKernelCode: bool, v: nat): Translation {
    var w := v % 0x1_0000_0000_0000;
    var kernel, hhdm := info.kernelVirtBase % 0x1_0000_0000_0000, info.hhdmBase % 0x1_0000_0000_0000;
    if !inKernelCode && start <= w && w - w % 4096 < end then To(w)
    else if kernel <= w && w - w % 4096 < kernel + info.kernelSize then To(info.kernelPhysBase + (w - kernel))
    else if 0x20_0000 <= w < 0x4000_0000 then To(w)
    else if hhdm + 0x20_0000 <= w < hhdm + 0x4000_0000 then To(w - hhdm)
    else NotMapped
  }

  /** The address lies in one of the two windows. */
  predicate InWindows(info: PagingInfo, w: nat) {
    var hhdm := info.hhdmBase % 0x1_0000_0000_0000;
    0x20_0000 <= w < 0x4000_0000 || hhdm + 0x20_0000 <= w < hhdm + 0x4000_0000
  }

  /** The bases are aligned, nothing wraps around, and the ranges do not meet the windows. The sizes are arbitrary. */
  ghost predicate Sound(info: PagingInfo, start: nat, end: nat, inKernelCode: bool) {
    var kernel, hhdm := info.kernelVirtBase % 0x1_0000_0000_0000, info.hhdmBase % 0x1_0000_0000_0000;
    && info.hhdmBase % 0x20_0000 == 0 && info.kernelVirtBase % 4096 == 0 && info.kernelPhysBase % 4096 == 0
    && 0x4000_0000 <= hhdm + 0x20_0000 && hhdm + 0x4000_0000 <= 0x1_0000_0000_0000
    && kernel + info.kernelSize <= 0x1_0000_0000_0000 && info.kernelPhysBase + info.kernelSize <= 0x10_0000_0000_0000
    && (forall w: nat :: kernel <= w < kernel + info.kernelSize ==> !InWindows(info, w))
    && (!inKernelCode ==>
          && start % 4096 == 0 && end <= 0x1_0000_0000_0000
          && (forall w: nat :: start <= w < end ==> !InWindows(info, w)))
  }

  /** A page belongs to a range exactly when it begins inside it: the last, partial page included. */
  lemma PagesCover(base: nat, size: int, p: nat)
    requires base % PAGE == 0
    ensures base / PAGE <= p < base / PAGE + Pages(size) <==> base <= PAGE * p < base + size
  {
    var b := base / PAGE;
    assert base == PAGE * b;
    if size > 0 {
      assert size + PAGE - 1 == Pages(size) * PAGE + (size + PAGE - 1) % PAGE;
    }
  }

  /** The 2 MiB pages 1 to 511 from an aligned address on. */
  lemma LargePagesCover(base: nat, w: nat)
    requires base % LARGE_PAGE == 0
    ensures 1 <= w / LARGE_PAGE - base / LARGE_PAGE <= WINDOW <==> base + 0x20_0000 <= w < base + 0x4000_0000
  {
    assert base == LARGE_PAGE * (base / LARGE_PAGE);
    assert w == LARGE_PAGE * (w / LARGE_PAGE) + w % LARGE_PAGE;
  }

  lemma AlignedLow(x: nat, unit: nat)
    requires unit == PAGE || unit == LARGE_PAGE
    requires x % unit == 0
    ensures Low(x) % unit == 0
  {
    LowParts(x);
    if unit == PAGE {
      Arith.DivMod(Low(x), PAGE, Region(x, 4), 0);
    } else {
      Arith.DivMod(Low(x), LARGE_PAGE, Region(x, 3), 0);
    }
  }

  lemma WindowOfPage(info: PagingInfo, p: nat)
    requires info.hhdmBase % LARGE_PAGE == 0
    ensures InWindows(info, PAGE * p) <==>
              1 <= p / 512 <= WINDOW || 1 <= p / 512 - Low(info.hhdmBase) / LARGE_PAGE <= WINDOW
  {
    AlignedLow(info.hhdmBase, LARGE_PAGE);
    Arith.DivMod(PAGE * p, LARGE_PAGE, p / 512, p % 512 * PAGE);
    LargePagesCover(0, PAGE * p);
    LargePagesCover(Low(info.hhdmBase), PAGE * p);
  }

  lemma RangeAvoids(info: PagingInfo, base: nat, size: int)
    requires info.hhdmBase % LARGE_PAGE == 0 && base % PAGE == 0
    requires forall w: nat :: base <= w < base + size ==> !InWindows(info, w)
    ensures AvoidsWindows(info.hhdmBase, base / PAGE, Pages(size))
  {
    hide InWindows, Low, Pages;
    forall p | base / PAGE <= p < base / PAGE + Pages(size)
      ensures !(1 <= p / 512 <= WINDOW) && !(1 <= p / 512 - Low(info.hhdmBase) / LARGE_PAGE <= WINDOW)
    {
      PagesCover(base, size, p);
      WindowOfPage(info, p);
    }
  }

  /** The end of a range rounded up to pages. */
  lemma RoundedEnd(base: nat, size: int, limit: nat)
    requires base % PAGE == 0 && limit % PAGE == 0 && base <= limit && base + size <= limit
    ensures base / PAGE + Pages(size) <= limit / PAGE
  {
    var l := limit / PAGE;
    PagesCover(base, size, l);
    assert limit == PAGE * l && base == PAGE * (base / PAGE);
  }

  lemma SoundIsDisjoint(info: PagingInfo, start: nat, end: nat, inKernelCode: bool)
    requires Sound(info, start, end, inKernelCode)
    ensures Disjoint(info, start, end, inKernelCode)
  {
    hide InWindows, Pages, AvoidsWindows;
    AlignedLow(info.hhdmBase, LARGE_PAGE);
    AlignedLow(info.kernelVirtBase, PAGE);
    RangeAvoids(info, Low(info.kernelVirtBase), info.kernelSize);
    RoundedEnd(Low(info.kernelVirtBase), info.kernelSize, VIRT_LIMIT);
    if !inKernelCode {
      UserRange(info, start, end);
    }
  }

  lemma UserRange(info: PagingInfo, start: nat, end: nat)
    requires info.hhdmBase % LARGE_PAGE == 0 && start % PAGE == 0 && end <= VIRT_LIMIT
    requires forall w: nat :: start <= w < end ==> !InWindows(info, w)
    ensures Low(start) / PAGE + Pages(end - start) <= VIRT_LIMIT / PAGE
    ensures AvoidsWindows(info.hhdmBase, Low(start) / PAGE, Pages(end - start))
  {
    hide InWindows;
    if start < end {
      assert Low(start) == start;
      RangeAvoids(info, start, end - start);
      RoundedEnd(start, end - start, VIRT_LIMIT);
    } else {
      assert Pages(end - start) == 0;
    }
  }

  /** The plan in page numbers is the translation wanted by addresses. */
  lemma IntendedIsWanted(info: PagingInfo, start: nat, end: nat, inKernelCode: bool, v: nat)
    requires Sound(info, start, end, inKernelCode)
    ensures Intended(PlanOf(info, start, end, inKernelCode), v) == Wanted(info, start, end, inKernelCode, v)
  {
    var w, p, g := Low(v), Region(v, 4), Region(v, 3);
    var kernel, hhdm := Low(info.kernelVirtBase), Low(info.hhdmBase);
    LowParts(v);
    AlignedLow(info.hhdmBase, LARGE_PAGE);
    AlignedLow(info.kernelVirtBase, PAGE);
    Arith.DivMod(w, PAGE, p, v % PAGE);
    Arith.DivMod(w, LARGE_PAGE, g, v % LARGE_PAGE);
    PagesCover(kernel, info.kernelSize, p);
    LargePagesCover(0, w);
    LargePagesCover(hhdm, w);
    var plan := PlanOf(info, start, end, inKernelCode);
    assert plan.hhdm * LARGE_PAGE == hhdm && plan.kernel * PAGE == kernel;
    UserPages(start, end, inKernelCode, w, p);
    hide Pages;
    if plan.kernel <= p < plan.kernel + plan.kernelPages {
      KernelFrame(info.kernelPhysBase, info.kernelSize, p - plan.kernel);
    }
    UserFrame(start, p, plan.user);
  }

  lemma UserPages(start: nat, end: nat, inKernelCode: bool, w: nat, p: nat)
    requires !inKernelCode ==> start % PAGE == 0 && end <= VIRT_LIMIT
    requires w == PAGE * p + w % PAGE && w < VIRT_LIMIT
    ensures var n := if inKernelCode then 0 else Pages(end - start);
            Low(start) / PAGE <= p < Low(start) / PAGE + n <==> !inKernelCode && start <= w && w - w % 4096 < end
  {
    if !inKernelCode {
      if start < end {
        PagesCover(start, end - start, p);
        assert start == PAGE * (start / PAGE);
      } else {
        assert Pages(end - start) == 0;
        assert start == PAGE * (start / PAGE);
      }
    }
  }

  lemma KernelFrame(phys: nat, size: nat, i: nat)
    requires phys % PAGE == 0 && phys + size <= PHYS_LIMIT && PAGE * i < size
    ensures (phys / PAGE + i) % FRAME_LIMIT * PAGE == phys + PAGE * i
  {
    assert phys == PAGE * (phys / PAGE);
    Arith.DivMod(phys / PAGE + i, FRAME_LIMIT, 0, phys / PAGE + i);
  }

  lemma UserFrame(start: nat, p: nat, user: nat)
    requires user == Low(start) / PAGE && p < VIRT_LIMIT / PAGE
    ensures start < VIRT_LIMIT && start % PAGE == 0 && user <= p ==> (start / PAGE + (p - user)) % FRAME_LIMIT == p
  {
    if start < VIRT_LIMIT && user <= p {
      assert Low(start) == start;
      Arith.DivMod(p, FRAME_LIMIT, 0, p);
    }
  }

  /** `CreateProcessPML4`, from its arguments alone: every address of the new space is translated as wanted. */
  lemma ProcessSpaceByRanges(k: Kernel, owner: Owner, first: nat, info: PagingInfo, start: nat, end: nat, inKernelCode: bool,
                             k': Kernel, v: nat)
    requires KernelOk(k, owner, first) && Sound(info, start, end, inKernelCode)
    requires RunCalls(k, ProcessCalls(|k.roots|, info, start, end, inKernelCode)) == Done(k')
    ensures |k'.roots| == |k.roots| + 1
    ensures Walk(k'.m.ram, k'.roots[|k.roots|], v) == Wanted(info, start, end, inKernelCode, v)
  {
    hide KernelOk, Sound, RunCalls, ProcessCalls, Disjoint, Walk, Intended, Wanted;
    SoundIsDisjoint(info, start, end, inKernelCode);
    ProcessSpaceExact(k, owner, first, info, start, end, inKernelCode, k', v);
    IntendedIsWanted(info, start, end, inKernelCode, v);
  }
}
