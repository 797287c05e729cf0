/** Round-robin fairness: with a fixed set of tasks every turn lasts ten ticks and every full round
    loads each task exactly ten times. */
module Fairness {
  import opened Outcomes
  import opened Scheduling
  import opened Resumption
  import Arith

  /** Some task runs, none is about to exit, tasks that wait have a full quantum and the running one 0 to 9 ticks left;
      however many tasks were ever created. */
  ghost predicate Steady(s: Sched) {
    && Base(s) && s.current.At?
    && (forall i :: 0 <= i < |s.tasks| ==> !s.tasks[i].invalid)
    && (forall i :: 0 <= i < |s.tasks| && i != s.current.index ==> s.tasks[i].quanta == QUANTUM)
    && s.tasks[s.current.index].quanta < QUANTUM
  }

  /** An orderly run in which nobody is about to exit is steady once a task runs. */
  lemma OrderlyIsSteady(s: Sched)
    requires Orderly(s) && s.current.At? && !s.tasks[s.current.index].invalid
    ensures Steady(s)
  {
    hide IdsOk;
  }

  /** The remainder, with the three facts that are needed about it. */
  function Wrap(x: nat, l: nat): nat
    requires l > 0
  {
    x % l
  }

  lemma WrapSmall(x: nat, l: nat)
    requires x < l
    ensures Wrap(x, l) == x
  {
    Arith.DivMod(x, l, 0, x);
  }

  lemma WrapAround(x: nat, l: nat)
    requires l > 0
    ensures Wrap(x + l, l) == Wrap(x, l)
  {
    var q, r := x / l, x % l;
    assert (q + 1) * l == q * l + l by {
      Arith.Distribute(q, -1, l);
    }
    Arith.DivMod(x + l, l, q + 1, r);
  }

  lemma WrapNext(x: nat, l: nat)
    requires l > 0
    ensures Wrap(x + 1, l) == if Wrap(x, l) + 1 == l then 0 else Wrap(x, l) + 1
  {
    var q, r := x / l, x % l;
    if r + 1 == l {
      assert (q + 1) * l == q * l + l by {
        Arith.Distribute(q, -1, l);
      }
      Arith.DivMod(x + 1, l, q + 1, 0);
    } else {
      Arith.DivMod(x + 1, l, q, r + 1);
    }
  }

  function Round(s: Sched): nat {
    QUANTUM * |s.tasks|
  }

  /** The place in the round: ten ticks per task, in list order. */
  ghost function Position(s: Sched): nat
    requires Steady(s)
  {
    QUANTUM * s.current.index + (QUANTUM - 1 - s.tasks[s.current.index].quanta)
  }

  lemma SaveSteady(s: Sched, stack: Registers)
    requires Steady(s)
    ensures var r := Save(s, stack);
            && Steady(r) && Ids(r.tasks) == Ids(s.tasks) && r.current == s.current && |r.tasks| == |s.tasks|
            && Position(r) == Position(s)
  {
    SaveBase(s, stack);
    hide IdsOk;
  }

  lemma ChargeSteady(s: Sched)
    requires Steady(s)
    ensures s.current.index < |s.tasks|
    ensures var r := Charge(s);
            && Steady(r) && Ids(r.tasks) == Ids(s.tasks) && |r.tasks| == |s.tasks|
            && Position(s) < Round(s)
            && Position(r) == (if Position(s) + 1 == Round(s) then 0 else Position(s) + 1)
  {
    ChargeBase(s);
    hide IdsOk;
  }

  /** Every tick moves one place on, and around at the end. */
  lemma TickAdvances(s: Sched, stack: Registers)
    requires Steady(s)
    ensures Tick(s, stack).Done?
    ensures var s' := Tick(s, stack).value.0;
            && Steady(s') && Ids(s'.tasks) == Ids(s.tasks)
            && Position(s) < Round(s)
            && Position(s') == (if Position(s) + 1 == Round(s) then 0 else Position(s) + 1)
  {
    SaveSteady(s, stack);
    var saved := Save(s, stack);
    hide Save, Charge, Base, Ids, Position;
    ChargeSteady(saved);
    ReapNothing(saved);
  }

  /** The states after each of a list of ticks. */
  function Ticks(s: Sched, stacks: seq<Registers>): Sched
    decreases |stacks|
  {
    if stacks == [] then s
    else
      var before := Ticks(s, stacks[..|stacks| - 1]);
      match Tick(before, stacks[|stacks| - 1])
      case Done((s', _)) => s'
      case _ => before
  }

  /** After n ticks, whatever the tasks did, the place is n further on, modulo the round. */
  lemma {:induction false} PositionAfter(s: Sched, stacks: seq<Registers>)
    requires Steady(s)
    ensures var s' := Ticks(s, stacks);
            && Steady(s') && Ids(s'.tasks) == Ids(s.tasks) && |s'.tasks| == |s.tasks|
            && Round(s) > 0
            && Position(s') == Wrap(Position(s) + |stacks|, Round(s))
    decreases |stacks|
  {
    hide Tick, Steady, Ids, Wrap, Position;
    var n := |stacks|;
    TickAdvances(s, ZERO_REGISTERS);
    if n == 0 {
      WrapSmall(Position(s), Round(s));
    } else {
      var before := Ticks(s, stacks[..n - 1]);
      PositionAfter(s, stacks[..n - 1]);
      TickAdvances(before, stacks[n - 1]);
      SameLength(Ticks(s, stacks).tasks, before.tasks);
      WrapNext(Position(s) + n - 1, Round(s));
    }
  }

  lemma SameLength(t: seq<Task>, u: seq<Task>)
    requires Ids(t) == Ids(u)
    ensures |t| == |u|
  {
    assert |t| == |Ids(t)| == |Ids(u)| == |u|;
  }

  /** A turn that begins now lasts exactly ten ticks: nine more ticks stay with the task, the next one
      loads the task after it, or the first one. */
  lemma TurnLastsTenTicks(s: Sched, stacks: seq<Registers>)
    requires Steady(s) && s.current.index < |s.tasks| && s.tasks[s.current.index].quanta == 9 && |stacks| <= 10
    ensures |s.tasks| > 0 && Steady(Ticks(s, stacks))
    ensures Ticks(s, stacks).current ==
              if |stacks| < 10 then s.current
              else if s.current.index + 1 < |s.tasks| then At(s.current.index + 1) else At(0)
  {
    hide Ticks, Ids, Wrap, Steady, Position;
    PositionAfter(s, stacks);
    IndexOfPosition(s);
    IndexOfPosition(Ticks(s, stacks));
    var i, k, n := s.current.index, |s.tasks|, |stacks|;
    TurnStart(s);
    if n == QUANTUM && i + 1 == k {
      WrapAround(0, Round(s));
      WrapSmall(0, Round(s));
    } else {
      WrapSmall(QUANTUM * i + n, Round(s));
    }
  }

  lemma TurnStart(s: Sched)
    requires Steady(s)
    ensures s.current.At? && s.current.index < |s.tasks|
    ensures s.tasks[s.current.index].quanta == QUANTUM - 1 ==> Position(s) == QUANTUM * s.current.index
  {
    hide IdsOk;
  }

  lemma IndexOfPosition(s: Sched)
    requires Steady(s)
    ensures s.current.At? && s.current.index == Position(s) / QUANTUM < |s.tasks|
  {
    hide IdsOk;
    Arith.DivMod(Position(s), QUANTUM, s.current.index, QUANTUM - 1 - s.tasks[s.current.index].quanta);
  }

  // ---- counting loads

  /** How many of the ticks load the task with the given id. */
  function Loads(s: Sched, stacks: seq<Registers>, id: nat): nat
    decreases |stacks|
  {
    if stacks == [] then 0
    else Loads(s, stacks[..|stacks| - 1], id) + if Running(Ticks(s, stacks)) == id then 1 else 0
  }

  /** How many numbers of [lo, hi) fall, modulo the round l, into the i-th group of ten. */
  function Hits(lo: nat, hi: nat, l: nat, i: nat): nat
    requires l > 0
    decreases hi - lo
  {
    if lo >= hi then 0 else Hits(lo, hi - 1, l, i) + if Wrap(hi - 1, l) / QUANTUM == i then 1 else 0
  }

  lemma {:induction false} LoadsAreHits(s: Sched, stacks: seq<Registers>, i: nat)
    requires Steady(s) && i < |s.tasks|
    ensures Loads(s, stacks, s.tasks[i].id) == Hits(Position(s) + 1, Position(s) + 1 + |stacks|, Round(s), i)
    decreases |stacks|
  {
    hide Ticks, Steady, Wrap, Ids, Running, Position;
    var n := |stacks|;
    if n > 0 {
      LoadsAreHits(s, stacks[..n - 1], i);
      PositionAfter(s, stacks);
      IndexOfPosition(Ticks(s, stacks));
      RunsIff(s, Ticks(s, stacks), i);
    }
  }

  lemma RunsIff(s: Sched, s': Sched, i: nat)
    requires Steady(s) && Steady(s') && Ids(s'.tasks) == Ids(s.tasks) && i < |s.tasks|
    ensures Running(s') == s.tasks[i].id <==> s'.current.index == i
  {
    SameLength(s.tasks, s'.tasks);
    hide PidOf;
    assert s'.tasks[i].id == Ids(s'.tasks)[i] == Ids(s.tasks)[i] == s.tasks[i].id;
    if s'.current.index < i {
      assert s'.tasks[s'.current.index].id > s'.tasks[i].id;
    } else if s'.current.index > i {
      assert s'.tasks[i].id > s'.tasks[s'.current.index].id;
    }
  }

  lemma {:induction false} HitsSplit(lo: nat, mid: nat, hi: nat, l: nat, i: nat)
    requires l > 0 && lo <= mid <= hi
    ensures Hits(lo, hi, l, i) == Hits(lo, mid, l, i) + Hits(mid, hi, l, i)
    decreases hi - mid
  {
    hide Wrap;
    if mid < hi {
      HitsSplit(lo, mid, hi - 1, l, i);
    }
  }

  /** A window as long as the round counts the same wherever it starts. */
  lemma {:induction false} HitsShift(lo: nat, l: nat, i: nat)
    requires l > 0
    ensures Hits(lo, lo + l, l, i) == Hits(0, l, l, i)
    decreases lo
  {
    hide Hits, Wrap;
    if lo > 0 {
      HitsShift(lo - 1, l, i);
      HitsSplit(lo - 1, lo, lo + l, l, i);
      HitsSplit(lo - 1, lo - 1 + l, lo + l, l, i);
      HitsOne(lo - 1, l, i);
      HitsOne(lo - 1 + l, l, i);
      WrapAround(lo - 1, l);
    }
  }

  lemma HitsOne(x: nat, l: nat, i: nat)
    requires l > 0
    ensures Hits(x, x + 1, l, i) == if Wrap(x, l) / QUANTUM == i then 1 else 0
  {
    hide Wrap;
    assert Hits(x, x, l, i) == 0;
  }

  /** Inside the round: none before the group, all of the group, none after it. */
  lemma {:induction false} HitsBlock(lo: nat, hi: nat, l: nat, i: nat, inside: bool)
    requires l > 0 && lo <= hi <= l
    requires inside ==> QUANTUM * i <= lo && hi <= QUANTUM * i + QUANTUM
    requires !inside ==> hi <= QUANTUM * i || QUANTUM * i + QUANTUM <= lo
    ensures Hits(lo, hi, l, i) == if inside then hi - lo else 0
    decreases hi - lo
  {
    hide Wrap;
    if lo < hi {
      HitsBlock(lo, hi - 1, l, i, inside);
      WrapSmall(hi - 1, l);
    }
  }

  lemma HitsRound(l: nat, i: nat)
    requires QUANTUM * i + QUANTUM <= l
    ensures Hits(0, l, l, i) == QUANTUM
  {
    HitsSplit(0, QUANTUM * i, l, l, i);
    HitsSplit(QUANTUM * i, QUANTUM * i + QUANTUM, l, l, i);
    HitsBlock(0, QUANTUM * i, l, i, false);
    HitsBlock(QUANTUM * i, QUANTUM * i + QUANTUM, l, i, true);
    HitsBlock(QUANTUM * i + QUANTUM, l, l, i, false);
  }

  /** With k tasks and no additions or exits, any 10k consecutive ticks load each task exactly ten
      times, wherever in a turn they begin and whatever the tasks compute. */
  lemma EachTaskTenTimesPerRound(s: Sched, stacks: seq<Registers>, i: nat)
    requires Steady(s) && i < |s.tasks| && |stacks| == 10 * |s.tasks|
    ensures Loads(s, stacks, s.tasks[i].id) == 10
  {
    hide Loads, Hits;
    LoadsAreHits(s, stacks, i);
    HitsShift(Position(s) + 1, Round(s), i);
    HitsRound(Round(s), i);
  }
}
