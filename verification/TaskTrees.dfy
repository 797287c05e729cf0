/** The trees that `CreateProcessPML4` builds (src/mm/paging/paging.c), for any number of tasks one after the other. */
module TaskTrees {
  import opened Ram
  import opened Outcomes
  import opened Frames
  import opened PageFormat
  import opened Paging
  import opened AddressSpaces
  import opened ProcessSpace
  import opened TableTree

  /** The space has no table of small pages. */
  ghost predicate NoSmall(ram: Memory, root: nat) {
    forall path: seq<nat> :: |path| == 3 ==> Follow(ram, root, path) == 0
  }

  // ---- one task

  /** A 2 MiB mapping adds no table of small pages to its space. */
  lemma LargeMapNoSmall(k: Kernel, owner: Owner, first: nat, c: Call)
    requires KernelOk(k, owner, first) && DoCall(k, c).Done? && c.Map? && c.size == Size2M && c.space < |k.roots|
    requires NoSmall(k.m.ram, k.roots[c.space])
    ensures NoSmall(DoCall(k, c).value.m.ram, k.roots[c.space]) && DoCall(k, c).value.roots == k.roots
  {
    hide Entry, Follow, Held, MapPage, EntriesOk;
    MapShrinks(k.m, owner, first, k.roots[c.space], c.virt, c.phys, Size2M, c.user);
    assert IsRoot(owner, k.roots[c.space]);
  }

  lemma NewSpaceNoSmall(k: Kernel, owner: Owner, first: nat)
    requires KernelOk(k, owner, first) && DoCall(k, NewSpace).Done?
    ensures var k' := DoCall(k, NewSpace).value; |k'.roots| == |k.roots| + 1 && NoSmall(k'.m.ram, k'.roots[|k.roots|])
  {
    hide Entry, Follow, Claim, TablesOk;
    var (m', r) := Claim(k.m).value;
    forall j: nat | j < 512 ensures Entry(m'.ram, r, j) == EMPTY {
      ClaimKeepsTables(k.m, owner, first, r, j);
    }
    forall path: seq<nat> | |path| == 3 ensures Follow(m'.ram, r, path) == 0 {
      FollowEmpty(m'.ram, r, path);
    }
  }

  /** No space loses a table, and the new one has none of small pages yet. */
  ghost predicate Clean(k: Kernel, calls: seq<Call>, s: nat) {
    && NoCover(k, calls)
    && (RunCalls(k, calls).Done? ==>
          var k' := RunCalls(k, calls).value; s < |k'.roots| && NoSmall(k'.m.ram, k'.roots[s]))
  }

  lemma CleanOne(k: Kernel, owner: Owner, first: nat, calls: seq<Call>, c: Call, s: nat)
    requires KernelOk(k, owner, first) && Legal(k, calls) && Clean(k, calls, s)
    requires c.Map? && c.size == Size2M && c.space == s
    ensures Clean(k, calls + [c], s)
  {
    hide NoCover, Legal, NoSmall, DoCall, Refines, KernelOk, RunCalls;
    NoCoverLast(k, calls, c);
    RunOne(k, calls, c);
    if RunCalls(k, calls).Done? {
      var k1 := RunCalls(k, calls).value;
      NoSmallNoCover(k1.m.ram, k1.roots[s], c.virt);
      if DoCall(k1, c).Done? {
        var owner1 := RunRefines(k, owner, first, calls);
        LargeMapNoSmall(k1, owner1, first, c);
      }
    }
  }

  lemma NoSmallNoCover(ram: Memory, root: nat, virt: nat)
    requires NoSmall(ram, root)
    ensures !Covers(ram, root, virt)
  {
    hide Follow;
  }

  lemma {:induction false} WindowsClean(k: Kernel, owner: Owner, first: nat, s: nat, hhdm: nat, n: nat)
    requires KernelOk(k, owner, first) && s == |k.roots|
    ensures Legal(k, [NewSpace] + WindowCalls(s, hhdm, n)) && Clean(k, [NewSpace] + WindowCalls(s, hhdm, n), s)
    decreases n
  {
    CreatedClean(k, owner, first);
    hide KernelOk, Clean;
    WindowLegal(k, [NewSpace], s, hhdm, n);
    if n == 0 {
      assert [NewSpace] + WindowCalls(s, hhdm, 0) == [NewSpace];
    } else {
      var i := LARGE_PAGE * n;
      var pre := [NewSpace] + WindowCalls(s, hhdm, n - 1);
      var c1, c2 := Map(s, i, i, Size2M, false), Map(s, hhdm + i, i, Size2M, false);
      WindowsClean(k, owner, first, s, hhdm, n - 1);
      hide Legal;
      LegalLarge(k, pre, c1);
      CleanOne(k, owner, first, pre, c1, s);
      CleanOne(k, owner, first, pre + [c1], c2, s);
      assert [NewSpace] + WindowCalls(s, hhdm, n) == pre + [c1] + [c2];
    }
  }

  lemma LegalLarge(k: Kernel, calls: seq<Call>, c: Call)
    requires Legal(k, calls) && c.Map? && c.size == Size2M && c.space < Spaces(|k.roots|, calls)
    ensures Legal(k, calls + [c])
  {
    LegalOne(k, calls, c);
  }

  lemma CreatedClean(k: Kernel, owner: Owner, first: nat)
    requires KernelOk(k, owner, first)
    ensures Legal(k, [NewSpace]) && Spaces(|k.roots|, [NewSpace]) == |k.roots| + 1
    ensures Clean(k, [NewSpace], |k.roots|)
  {
    hide KernelOk, DoCall, NoSmall;
    assert [NewSpace][..0] == [];
    assert NoCover(k, [NewSpace]);
    RunOne(k, [], NewSpace);
    assert [] + [NewSpace] == [NewSpace];
    if DoCall(k, NewSpace).Done? {
      NewSpaceNoSmall(k, owner, first);
    }
  }

  /** 4 KiB mappings cover nothing. */
  lemma {:induction false} NoCoverSmall(k: Kernel, pre: seq<Call>, calls: seq<Call>)
    requires NoCover(k, pre) && forall c :: c in calls ==> c.Map? && c.size == Size4K
    ensures NoCover(k, pre + calls)
    decreases |calls|
  {
    hide NoCover;
    if calls == [] {
      assert pre + calls == pre;
    } else {
      var init, c := calls[..|calls| - 1], calls[|calls| - 1];
      assert c in calls;
      NoCoverSmall(k, pre, init);
      NoCoverLast(k, pre + init, c);
      assert pre + calls == (pre + init) + [c];
    }
  }

  lemma {:induction false} RangeIsSmall(s: nat, virt: nat, phys: nat, user: bool, n: nat)
    ensures forall c :: c in RangeCalls(s, virt, phys, user, n) ==> c.Map? && c.size == Size4K
  {
    if n > 0 {
      RangeIsSmall(s, virt, phys, user, n - 1);
    }
  }

  /** `CreateProcessPML4` never lays a 2 MiB page over a table of small ones: it maps the windows of the fresh space
      first. */
  lemma ProcessNoCover(k: Kernel, owner: Owner, first: nat, info: PagingInfo, start: nat, end: nat, inKernelCode: bool)
    requires KernelOk(k, owner, first)
    ensures NoCover(k, ProcessCalls(|k.roots|, info, start, end, inKernelCode))
  {
    hide NoCover, KernelOk, Legal, RangeCalls, WindowCalls;
    var s := |k.roots|;
    WindowsClean(k, owner, first, s, info.hhdmBase, WINDOW);
    var windows := [NewSpace] + WindowCalls(s, info.hhdmBase, WINDOW);
    RangeIsSmall(s, info.kernelVirtBase, info.kernelPhysBase, false, Pages(info.kernelSize));
    RangeIsSmall(s, start, start, true, Pages(end - start));
    NoCoverSmall(k, windows, KernelCalls(s, info));
    NoCoverSmall(k, windows + KernelCalls(s, info), UserCalls(s, start, end, inKernelCode));
  }

  // ---- runs one after the other

  lemma {:induction false} NoCoverConcat(k: Kernel, a: seq<Call>, b: seq<Call>)
    requires NoCover(k, a) && RunCalls(k, a).Done? && NoCover(RunCalls(k, a).value, b)
    ensures NoCover(k, a + b)
    decreases |b|
  {
    var k1 := RunCalls(k, a).value;
    if b == [] {
      assert a + b == a;
    } else {
      var init, c := b[..|b| - 1], b[|b| - 1];
      assert b == init + [c];
      hide NoCover, RunCalls, Covers;
      NoCoverLast(k1, init, c);
      NoCoverConcat(k, a, init);
      RunConcat(k, a, init);
      NoCoverLast(k, a + init, c);
      assert a + b == (a + init) + [c];
    }
  }

  /** A later run sees a 2 MiB mapping in force exactly where the whole run does. */
  lemma UnderLargeConcat(k: Kernel, a: seq<Call>, k': Kernel, b: seq<Call>, s: nat, v: nat)
    requires Refines(k, a, k') && Legal(k, a)
    ensures UnderLarge(k, a + b, s, v) <==> UnderLarge(k', b, s, v)
  {
    hide Latest, Hit, Legal, Spaces;
    LatestConcat(a, b, s, v);
    if s < |k'.roots| {
      assert Meets(k, a, s, v, Hit(k'.m.ram, k'.roots[s], v, 0));
    } else {
      NoCallsForLater(k, a, s, v);
    }
  }

  lemma {:induction false} LegalConcat(k: Kernel, a: seq<Call>, k': Kernel, b: seq<Call>)
    requires Refines(k, a, k') && Legal(k, a) && Legal(k', b)
    ensures Legal(k, a + b) && Spaces(|k.roots|, a + b) == Spaces(|k'.roots|, b)
    decreases |b|
  {
    if b == [] {
      assert a + b == a;
    } else {
      var init, c := b[..|b| - 1], b[|b| - 1];
      hide UnderLarge, Latest, Hit;
      LegalConcat(k, a, k', init);
      assert a + b == (a + init) + [c];
      assert (a + b)[..|a + b| - 1] == a + init;
      if c.Map? {
        UnderLargeConcat(k, a, k', init, c.space, c.virt);
      }
    }
  }

  // ---- any number of tasks

  datatype Task = Task(start: nat, end: nat, inKernelCode: bool)

  /** `CreateProcessPML4` for each task, from space s on. */
  function TaskCalls(s: nat, info: PagingInfo, tasks: seq<Task>): seq<Call> {
    if tasks == [] then []
    else
      var n := |tasks| - 1;
      TaskCalls(s, info, tasks[..n]) + ProcessCalls(s + n, info, tasks[n].start, tasks[n].end, tasks[n].inKernelCode)
  }

  ghost predicate AllDisjoint(info: PagingInfo, tasks: seq<Task>) {
    forall t :: t in tasks ==> Disjoint(info, t.start, t.end, t.inKernelCode)
  }

  /** One more task after a run. */
  lemma OneMoreTask(k: Kernel, owner: Owner, first: nat, info: PagingInfo, a: seq<Call>, t: Task, b: seq<Call>)
    requires KernelOk(k, owner, first) && Legal(k, a) && NoCover(k, a) && Disjoint(info, t.start, t.end, t.inKernelCode)
    requires RunCalls(k, a).Done? && RunCalls(k, a + b).Done?
    requires b == ProcessCalls(|RunCalls(k, a).value.roots|, info, t.start, t.end, t.inKernelCode)
    ensures Legal(k, a + b) && NoCover(k, a + b)
    ensures |RunCalls(k, a + b).value.roots| == |RunCalls(k, a).value.roots| + 1
  {
    hide Legal, NoCover, RunCalls, ProcessCalls, KernelOk, Refines, Disjoint, Spaces, Walk, Intended, PlanOf;
    RunConcat(k, a, b);
    var k1 := RunCalls(k, a).value;
    var owner1 := RunRefines(k, owner, first, a);
    ProcessLegal(k1, info, t.start, t.end, t.inKernelCode);
    ProcessNoCover(k1, owner1, first, info, t.start, t.end, t.inKernelCode);
    LegalConcat(k, a, k1, b);
    NoCoverConcat(k, a, b);
    ProcessSpaceExact(k1, owner1, first, info, t.start, t.end, t.inKernelCode, RunCalls(k1, b).value, 0);
  }

  lemma {:induction false} TasksLegal(k: Kernel, owner: Owner, first: nat, info: PagingInfo, tasks: seq<Task>)
    requires KernelOk(k, owner, first) && AllDisjoint(info, tasks) && RunCalls(k, TaskCalls(|k.roots|, info, tasks)).Done?
    ensures Legal(k, TaskCalls(|k.roots|, info, tasks)) && NoCover(k, TaskCalls(|k.roots|, info, tasks))
    ensures |RunCalls(k, TaskCalls(|k.roots|, info, tasks)).value.roots| == |k.roots| + |tasks|
    decreases |tasks|
  {
    hide Legal, NoCover, RunCalls, ProcessCalls, KernelOk, Disjoint, TaskCalls, AllDisjoint;
    NoTasks(k, info);
    if tasks != [] {
      var n := |tasks| - 1;
      var t := tasks[n];
      LastTask(|k.roots|, info, tasks);
      var a, b := TaskCalls(|k.roots|, info, tasks[..n]), ProcessCalls(|k.roots| + n, info, t.start, t.end, t.inKernelCode);
      RunConcat(k, a, b);
      TasksLegal(k, owner, first, info, tasks[..n]);
      OneMoreTask(k, owner, first, info, a, t, b);
    }
  }

  lemma NoTasks(k: Kernel, info: PagingInfo)
    ensures TaskCalls(|k.roots|, info, []) == [] && Legal(k, []) && NoCover(k, []) && RunCalls(k, []) == Done(k)
  {
  }

  lemma LastTask(s: nat, info: PagingInfo, tasks: seq<Task>)
    requires tasks != [] && AllDisjoint(info, tasks)
    ensures var n := |tasks| - 1;
            && TaskCalls(s, info, tasks) ==
                 TaskCalls(s, info, tasks[..n]) + ProcessCalls(s + n, info, tasks[n].start, tasks[n].end, tasks[n].inKernelCode)
            && AllDisjoint(info, tasks[..n]) && Disjoint(info, tasks[n].start, tasks[n].end, tasks[n].inKernelCode)
  {
    hide Disjoint, ProcessCalls;
    assert tasks[|tasks| - 1] in tasks && forall u :: u in tasks[..|tasks| - 1] ==> u in tasks;
  }

  /** However many tasks are created, every frame that `CreateProcessPML4` took, for all of them together, is reached by
      exactly one path from exactly one PML4. */
  lemma TasksHaveOnePath(k: Kernel, owner: Owner, first: nat, info: PagingInfo, tasks: seq<Task>, a: nat)
      returns (s: nat, path: seq<nat>)
    requires KernelOk(k, owner, first) && AllDisjoint(info, tasks) && RunCalls(k, TaskCalls(|k.roots|, info, tasks)).Done?
    requires var k' := RunCalls(k, TaskCalls(|k.roots|, info, tasks)).value; a in Held(k'.m.frames) && a !in Held(k.m.frames)
    ensures var k' := RunCalls(k, TaskCalls(|k.roots|, info, tasks)).value;
            && s < |k'.roots| && |path| <= 3 && Follow(k'.m.ram, k'.roots[s], path) == a
            && (forall s': nat, path': seq<nat> ::
                  s' < |k'.roots| && |path'| <= 3 && Follow(k'.m.ram, k'.roots[s'], path') == a ==> s' == s && path' == path)
  {
    hide Legal, NoCover, RunCalls, TaskCalls, KernelOk, Held, Follow;
    TasksLegal(k, owner, first, info, tasks);
    s, path := ExactlyOnePath(k, owner, first, TaskCalls(|k.roots|, info, tasks), a);
  }
}
