/** `GetEntryNextLevel` and `MapMemory` (src/mm/paging/paging.c): page tables edited in place in
    frames taken from the allocator, proved against the hardware walk. */
module Paging {
  import opened Ram
  import opened Outcomes
  import opened Frames
  import opened PageFormat
  import Arith

  datatype PageSize = Size4K | Size2M

  // ---- the operations as functions on the machine

  /** A link to a table. The 40-bit field keeps the low bits of the frame number. */
  function TableEntry(e: Pte, table: nat): Pte {
    e.(frame := table / PAGE % FRAME_LIMIT, present := true, writable := true)
  }

  /** The leaf that `MapMemory` leaves: bits it does not assign keep their value. */
  function LeafEntry(e: Pte, phys: nat, size: PageSize, user: bool): Pte {
    var mapped := e.(present := true, writable := true, frame := phys / PAGE % FRAME_LIMIT);
    var sized := if size == Size2M then mapped.(large := true) else mapped;
    if user then sized.(user := true) else sized
  }

  /** The pointer `GetEntryNextLevel` makes of an entry: the shift is done in the 40 bits of the field. */
  function TableOf(e: Pte): (t: nat)
    ensures t % TABLE == 0
  {
    FortyBits(e.frame);
    e.frame * TABLE % TABLE_LIMIT
  }

  lemma FortyBits(frame: nat)
    ensures frame * TABLE % TABLE_LIMIT % TABLE == 0
    ensures frame * TABLE < TABLE_LIMIT ==> frame * TABLE % TABLE_LIMIT == frame * TABLE
  {
    var q, r := frame / 0x1000_0000, frame % 0x1000_0000;
    Arith.DivMod(frame * TABLE, TABLE_LIMIT, q, r * TABLE);
    Arith.DivMod(r * TABLE, TABLE, r, 0);
  }

  function NextLevel(m: Machine, table: nat, i: nat): Outcome<(Machine, nat)> {
    if table == 0 then Done((m, 0))
    else if !Entry(m.ram, table, i).present then
      var (m1, a) :- Claim(m);
      Done((m1.(ram := SetEntry(m1.ram, table, i, TableEntry(Entry(m1.ram, table, i), a))), a))
    else Done((m, TableOf(Entry(m.ram, table, i))))
  }

  /** The steps down to the table whose entry `MapMemory` sets. */
  function Locate(m: Machine, root: nat, virt: nat, size: PageSize): Outcome<(Machine, nat)> {
    var (m1, pdpt) :- NextLevel(m, root, Index(virt, 0));
    var (m2, pd) :- NextLevel(m1, pdpt, Index(virt, 1));
    if size == Size2M then Done((m2, pd)) else NextLevel(m2, pd, Index(virt, 2))
  }

  /** The machine after the call and the status: true for KSTATUS_SUCCESS. */
  function MapPage(m: Machine, root: nat, virt: nat, phys: nat, size: PageSize, user: bool): Outcome<(Machine, bool)> {
    var (m1, t) :- Locate(m, root, virt, size);
    if t == 0 then Done((m1, false))
    else Done((m1.(ram := SetLeaf(m1.ram, t, LeafIndex(virt, size), phys, size, user)), true))
  }

  function LeafIndex(virt: nat, size: PageSize): (i: nat)
    ensures i < 512
  {
    Index(virt, LeafDepth(size))
  }

  function LeafDepth(size: PageSize): (d: nat)
    ensures 2 <= d <= 3
  {
    if size == Size2M then 2 else 3
  }

  function SetLeaf(m: Memory, t: nat, i: nat, phys: nat, size: PageSize, user: bool): Memory {
    SetEntry(m, t, i, LeafEntry(Entry(m, t, i), phys, size, user))
  }

  // ---- the invariant

  /** The place of a table: whose tree, how deep, and which region of the 48-bit space. */
  datatype Slot = Slot(root: nat, depth: nat, region: nat)

  type Owner = map<nat, Slot>

  /** An entry that is not present is zero; a present one is writable and executable; and a present entry that is no
      leaf links the one table that serves its region. */
  ghost predicate EntryOk(ram: Memory, owner: Owner, t: nat, i: nat)
    requires t in owner
  {
    var e, s := Entry(ram, t, i), owner[t];
    && (!e.present ==> e == EMPTY)
    && (e.present ==> e.writable && e.reserved == 0)
    && (e.present && s.depth < 3 && !(s.depth == 2 && e.large) ==>
          && !e.large
          && e.frame * TABLE in owner
          && owner[e.frame * TABLE] == Slot(s.root, s.depth + 1, s.region * 512 + i))
  }

  ghost predicate EntriesOk(ram: Memory, owner: Owner) {
    forall t, i :: t in owner && 0 <= i < 512 ==> EntryOk(ram, owner, t, i)
  }

  ghost predicate SlotsOk(owner: Owner) {
    forall t :: t in owner ==>
      && t % TABLE == 0 && t > 0 && owner[t].depth <= 3
      && (owner[t].depth == 0 ==> owner[t] == Slot(t, 0, 0))
  }

  /** Frames lie below 2^40, so that the pointer made of an entry is the one that was stored. */
  ghost predicate PoolOk(f: seq<Page>, first: nat) {
    Layout(f, first) && first + PAGE * |f| <= TABLE_LIMIT
  }

  ghost predicate TablesOk(m: Machine, owner: Owner, first: nat) {
    PoolOk(m.frames, first) && owner.Keys <= Held(m.frames) && SlotsOk(owner) && EntriesOk(m.ram, owner)
  }

  ghost predicate IsRoot(owner: Owner, r: nat) {
    r in owner && owner[r].depth == 0
  }

  /** No byte outside the tables changed. */
  ghost predicate OnlyTables(ram: Memory, ram': Memory, owner: Owner) {
    forall b :: (forall t :: t in owner ==> !(t <= b < t + TABLE)) ==> Peek(ram', b) == Peek(ram, b)
  }

  ghost predicate SameWalks(ram: Memory, ram': Memory, owner: Owner) {
    forall r, v: nat :: IsRoot(owner, r) ==> Hit(ram', r, v, 0) == Hit(ram, r, v, 0)
  }

  ghost predicate KeepsPresent(ram: Memory, ram': Memory, owner: Owner) {
    forall t, j: nat :: t in owner && j < 512 && Entry(ram, t, j).present ==> Entry(ram', t, j) == Entry(ram, t, j)
  }

  ghost predicate Links(ram: Memory, t: nat, i: nat, c: nat) {
    Entry(ram, t, i).present && !Entry(ram, t, i).large && Entry(ram, t, i).frame * TABLE == c
  }

  /** Tables are only added, in frames that nobody held before. */
  ghost predicate Grows(f: seq<Page>, owner: Owner, f': seq<Page>, owner': Owner) {
    && (forall t :: t in owner ==> t in owner' && owner'[t] == owner[t])
    && (forall t :: t in owner' && t !in owner ==> t !in Held(f))
    && Held(f) <= Held(f')
  }

  // ---- linking a fresh table

  /** All entries of all tables are kept, except one that was not present and now links a
      table of zeros. */
  ghost predicate Linked(ram: Memory, ram': Memory, owner: Owner, t: nat, i: nat, n: nat)
    requires t in owner
  {
    && i < 512 && owner[t].depth < 3 && n !in owner
    && (forall t', j: nat :: t' in owner && j < 512 && !(t' == t && j == i) ==> Entry(ram', t', j) == Entry(ram, t', j))
    && (forall j: nat :: j < 512 ==> Entry(ram', n, j) == EMPTY)
    && !Entry(ram, t, i).present
    && Entry(ram', t, i).present && !Entry(ram', t, i).large && Entry(ram', t, i).frame * TABLE == n
    && Entry(ram', t, i).writable && Entry(ram', t, i).reserved == 0
  }

  lemma {:induction false} LinkedHit(ram: Memory, ram': Memory, owner: Owner, t: nat, i: nat, n: nat, t0: nat, v: nat, d: nat)
    requires EntriesOk(ram, owner) && t in owner && Linked(ram, ram', owner, t, i, n)
    requires t0 in owner && d <= 3 && owner[t0].depth == d
    ensures Hit(ram', t0, v, d) == Hit(ram, t0, v, d)
    decreases 3 - d
  {
    hide Entry;
    var w := Entry(ram, t0, Index(v, d));
    if t0 == t && Index(v, d) == i {
      assert Entry(ram', n, Index(v, d + 1)) == EMPTY;
    } else if w.present && d < 3 && !w.large {
      assert EntryOk(ram, owner, t0, Index(v, d));
      LinkedHit(ram, ram', owner, t, i, n, w.frame * TABLE, v, d + 1);
    }
  }

  lemma LinkedEntriesOk(ram: Memory, ram': Memory, owner: Owner, t: nat, i: nat, n: nat)
    requires EntriesOk(ram, owner) && t in owner && Linked(ram, ram', owner, t, i, n)
    ensures EntriesOk(ram', owner[n := Slot(owner[t].root, owner[t].depth + 1, owner[t].region * 512 + i)])
  {
    hide Entry;
    var owner' := owner[n := Slot(owner[t].root, owner[t].depth + 1, owner[t].region * 512 + i)];
    forall t', j | t' in owner' && 0 <= j < 512 ensures EntryOk(ram', owner', t', j) {
      if t' != n && !(t' == t && j == i) {
        assert EntryOk(ram, owner, t', j);
      }
    }
  }

  /** Taking a frame keeps every entry of every table; the frame itself reads as no entries. */
  lemma ClaimKeepsTables(m: Machine, owner: Owner, first: nat, t: nat, j: nat)
    requires TablesOk(m, owner, first) && Claim(m).Done? && j < 512
    ensures t in owner ==> Entry(Claim(m).value.0.ram, t, j) == Entry(m.ram, t, j)
    ensures t == Claim(m).value.1 ==> t !in owner && Entry(Claim(m).value.0.ram, t, j) == EMPTY
  {
    ClaimSpec(m, first);
    hide Claim, Held, Unpack, Word, Layout;
    var (m1, n) := Claim(m).value;
    if t in owner {
      HeldApart(m1.frames, first, t, n);
      WordSame(m.ram, m1.ram, t + 8 * j);
    } else if t == n {
      ZeroEntry(m1.ram, n, j);
    }
  }

  /** The frame number of a pool frame fits the 40-bit field. */
  lemma LinkTarget(n: nat, first: nat, k: nat, size: nat)
    requires n == first + PAGE * k && k < size && n % PAGE == 0 && first + PAGE * size <= TABLE_LIMIT
    ensures TableEntry(EMPTY, n).frame * TABLE == n && TableEntry(EMPTY, n).Fits()
  {
    assert n / PAGE < FRAME_LIMIT;
  }

  /** The bytes written by a link are exactly such a change. */
  lemma FreshLink(m: Machine, owner: Owner, first: nat, t: nat, i: nat)
    requires TablesOk(m, owner, first)
    requires t in owner && i < 512 && owner[t].depth < 3 && !Entry(m.ram, t, i).present
    requires Claim(m).Done?
    ensures NextLevel(m, t, i).Done?
    ensures Linked(m.ram, NextLevel(m, t, i).value.0.ram, owner, t, i, Claim(m).value.1)
  {
    hide Entry;
    var (m1, n) := Claim(m).value;
    assert EntryOk(m.ram, owner, t, i);
    ClaimKeepsTables(m, owner, first, t, i);
    assert NextLevel(m, t, i) == Done((m1.(ram := SetEntry(m1.ram, t, i, TableEntry(EMPTY, n))), n));
    assert n % TABLE == 0 && TableEntry(EMPTY, n).frame * TABLE == n && TableEntry(EMPTY, n).Fits() by {
      ClaimSpec(m, first);
      LinkTarget(n, first, FirstFree(m.frames, 0), |m.frames|);
    }
    assert n !in owner by {
      ClaimKeepsTables(m, owner, first, n, 0);
    }
    var ram' := NextLevel(m, t, i).value.0.ram;
    forall t', j: nat | t' in owner && j < 512
      ensures Entry(ram', t', j) == if t' == t && j == i then TableEntry(EMPTY, n) else Entry(m.ram, t', j)
    {
      ClaimKeepsTables(m, owner, first, t', j);
      WriteEntry(m1.ram, t, i, TableEntry(EMPTY, n), t', j);
    }
    forall j: nat | j < 512 ensures Entry(ram', n, j) == EMPTY {
      ClaimKeepsTables(m, owner, first, n, j);
      WriteEntry(m1.ram, t, i, TableEntry(EMPTY, n), n, j);
    }
  }

  lemma FreshLinkBytes(m: Machine, owner: Owner, first: nat, t: nat, i: nat)
    requires TablesOk(m, owner, first)
    requires t in owner && i < 512 && !Entry(m.ram, t, i).present
    requires Claim(m).Done?
    ensures var (m', n) := NextLevel(m, t, i).value;
            && n == Claim(m).value.1 && n % TABLE == 0 && n > 0
            && PoolOk(m'.frames, first) && Held(m'.frames) == Held(m.frames) + {n}
            && (forall b :: !(t <= b < t + TABLE) && !(n <= b < n + TABLE) ==> Peek(m'.ram, b) == Peek(m.ram, b))
  {
    hide Entry;
    ClaimSpec(m, first);
    var (m1, n) := Claim(m).value;
    WriteEntryBytes(m1.ram, t, i, TableEntry(Entry(m1.ram, t, i), n));
  }

  // ---- one step down

  /** The owner map after a step down from entry i of table t. */
  ghost function OwnerAfter(m: Machine, owner: Owner, t: nat, i: nat): Owner
    requires t in owner
  {
    if !Entry(m.ram, t, i).present && Claim(m).Done? then
      owner[Claim(m).value.1 := Slot(owner[t].root, owner[t].depth + 1, owner[t].region * 512 + i)]
    else owner
  }

  lemma LinkKeepsTables(m: Machine, owner: Owner, first: nat, t: nat, i: nat)
    requires TablesOk(m, owner, first) && t in owner && i < 512 && owner[t].depth < 3
    requires !Entry(m.ram, t, i).present && Claim(m).Done?
    ensures NextLevel(m, t, i).Done?
    ensures TablesOk(NextLevel(m, t, i).value.0, OwnerAfter(m, owner, t, i), first)
  {
    hide Entry;
    FreshLink(m, owner, first, t, i);
    var (m', n) := NextLevel(m, t, i).value;
    assert EntriesOk(m'.ram, OwnerAfter(m, owner, t, i)) by {
      LinkedEntriesOk(m.ram, m'.ram, owner, t, i, n);
    }
    assert PoolOk(m'.frames, first) && OwnerAfter(m, owner, t, i).Keys <= Held(m'.frames)
        && SlotsOk(OwnerAfter(m, owner, t, i)) by {
      FreshLinkBytes(m, owner, first, t, i);
    }
  }

  lemma LinkKeepsBytes(m: Machine, owner: Owner, first: nat, t: nat, i: nat)
    requires TablesOk(m, owner, first) && t in owner && i < 512 && owner[t].depth < 3
    requires !Entry(m.ram, t, i).present && Claim(m).Done?
    ensures NextLevel(m, t, i).Done?
    ensures OnlyTables(m.ram, NextLevel(m, t, i).value.0.ram, OwnerAfter(m, owner, t, i))
  {
    hide Entry;
    FreshLinkBytes(m, owner, first, t, i);
    var owner' := OwnerAfter(m, owner, t, i);
    assert t in owner' && Claim(m).value.1 in owner';
  }

  lemma LinkKeepsWalks(m: Machine, owner: Owner, first: nat, t: nat, i: nat)
    requires TablesOk(m, owner, first) && t in owner && i < 512 && owner[t].depth < 3
    requires !Entry(m.ram, t, i).present && Claim(m).Done?
    ensures NextLevel(m, t, i).Done?
    ensures SameWalks(m.ram, NextLevel(m, t, i).value.0.ram, owner)
  {
    hide Entry;
    FreshLink(m, owner, first, t, i);
    var (m', n) := NextLevel(m, t, i).value;
    forall r, v: nat | IsRoot(owner, r) ensures Hit(m'.ram, r, v, 0) == Hit(m.ram, r, v, 0) {
      LinkedHit(m.ram, m'.ram, owner, t, i, Claim(m).value.1, r, v, 0);
    }
  }

  /** `GetEntryNextLevel` keeps the invariant, every translation of every address space, and all
      bytes outside the tables; the table it returns serves the entry's region. The only way to go
      wrong is a 2 MiB leaf, which it does not recognise. */
  lemma NextLevelOk(m: Machine, owner: Owner, first: nat, t: nat, i: nat)
    requires TablesOk(m, owner, first) && t in owner && i < 512 && owner[t].depth < 3
    requires !(Entry(m.ram, t, i).present && Entry(m.ram, t, i).large)
    ensures NextLevel(m, t, i) == Panic <==> !Entry(m.ram, t, i).present && Claim(m) == Panic
    ensures !NextLevel(m, t, i).Fault?
    ensures NextLevel(m, t, i).Done? ==>
              var (m', c) := NextLevel(m, t, i).value;
              var owner' := OwnerAfter(m, owner, t, i);
              && TablesOk(m', owner', first)
              && c in owner' && owner'[c] == Slot(owner[t].root, owner[t].depth + 1, owner[t].region * 512 + i)
              && KeepsPresent(m.ram, m'.ram, owner)
              && Links(m'.ram, t, i, c)
              && SameWalks(m.ram, m'.ram, owner)
              && OnlyTables(m.ram, m'.ram, owner')
              && Grows(m.frames, owner, m'.frames, owner')
  {
    hide Entry, TableOf, Held, Peek;
    assert EntryOk(m.ram, owner, t, i);
    if !Entry(m.ram, t, i).present {
      assert !Claim(m).Fault?;
      if Claim(m).Done? {
        LinkKeepsTables(m, owner, first, t, i);
        LinkKeepsBytes(m, owner, first, t, i);
        LinkKeepsWalks(m, owner, first, t, i);
        FreshLink(m, owner, first, t, i);
        ClaimSpec(m, first);
      }
    } else {
      PointerToTable(m, owner, first, Entry(m.ram, t, i));
    }
  }

  // ---- the path down to the table that is edited

  /** Following v from table t0 at depth d through links arrives at table t at depth e. */
  ghost predicate Leads(ram: Memory, t0: nat, v: nat, d: nat, e: nat, t: nat)
    requires e <= 3
    decreases e - d
  {
    if d >= e then d == e && t0 == t
    else
      var i := Index(v, d);
      Links(ram, t0, i, Entry(ram, t0, i).frame * TABLE)
      && Leads(ram, Entry(ram, t0, i).frame * TABLE, v, d + 1, e, t)
  }

  lemma {:induction false} LeadsKept(ram: Memory, ram': Memory, owner: Owner, t0: nat, v: nat, d: nat, e: nat, t: nat)
    requires e <= 3 && EntriesOk(ram, owner) && KeepsPresent(ram, ram', owner)
    requires t0 in owner && owner[t0].depth == d && Leads(ram, t0, v, d, e, t)
    ensures Leads(ram', t0, v, d, e, t)
    decreases e - d
  {
    hide Entry;
    if d < e {
      assert EntryOk(ram, owner, t0, Index(v, d));
      LeadsKept(ram, ram', owner, Entry(ram, t0, Index(v, d)).frame * TABLE, v, d + 1, e, t);
    }
  }

  lemma {:induction false} LeadsFurther(ram: Memory, t0: nat, v: nat, d: nat, e: nat, t: nat, c: nat)
    requires e < 3 && Leads(ram, t0, v, d, e, t) && Links(ram, t, Index(v, e), c)
    ensures Leads(ram, t0, v, d, e + 1, c)
    decreases e - d
  {
    hide Entry;
    if d < e {
      LeadsFurther(ram, Entry(ram, t0, Index(v, d)).frame * TABLE, v, d + 1, e, t, c);
    } else {
      assert Leads(ram, c, v, e + 1, e + 1, c);
    }
  }

  lemma {:induction false} LeadsForRegion(ram: Memory, t0: nat, v: nat, u: nat, d: nat, e: nat, t: nat)
    requires e <= 3 && Leads(ram, t0, v, d, e, t) && Region(u, e) == Region(v, e)
    ensures Leads(ram, t0, u, d, e, t)
    decreases e - d
  {
    hide Entry;
    if d < e {
      SameRegionAbove(u, v, d, e);
      LeadsForRegion(ram, Entry(ram, t0, Index(v, d)).frame * TABLE, v, u, d + 1, e, t);
    }
  }

  lemma {:induction false} LeadsHit(ram: Memory, t0: nat, v: nat, d: nat, e: nat, t: nat)
    requires e <= 3 && Leads(ram, t0, v, d, e, t)
    ensures Hit(ram, t0, v, d) == Hit(ram, t, v, e)
    decreases e - d
  {
    hide Entry;
    if d < e {
      LeadsHit(ram, Entry(ram, t0, Index(v, d)).frame * TABLE, v, d + 1, e, t);
    }
  }

  // ---- writing a leaf

  /** One entry changes, to a leaf. */
  ghost predicate LeafChange(ram: Memory, ram': Memory, owner: Owner, t: nat, i: nat, w: Pte)
    requires t in owner
  {
    && i < 512 && w.present && w.writable && w.reserved == 0 && Entry(ram', t, i) == w
    && (owner[t].depth == 3 || (owner[t].depth == 2 && w.large))
    && (forall t', j: nat :: t' in owner && j < 512 && !(t' == t && j == i) ==> Entry(ram', t', j) == Entry(ram, t', j))
  }

  lemma LeafEntriesOk(ram: Memory, ram': Memory, owner: Owner, t: nat, i: nat, w: Pte)
    requires EntriesOk(ram, owner) && t in owner && LeafChange(ram, ram', owner, t, i, w)
    ensures EntriesOk(ram', owner)
  {
    hide Entry;
    forall t', j | t' in owner && 0 <= j < 512 ensures EntryOk(ram', owner, t', j) {
      assert EntryOk(ram, owner, t', j);
    }
  }

  /** An address of another region, or of another address space, does not see the change. */
  lemma {:induction false} LeafMissed(ram: Memory, ram': Memory, owner: Owner, t: nat, i: nat, w: Pte, t0: nat, r: nat, v: nat, d: nat)
    requires EntriesOk(ram, owner) && t in owner && LeafChange(ram, ram', owner, t, i, w)
    requires t0 in owner && d <= 3 && owner[t0] == Slot(r, d, Region(v, d))
    requires !(r == owner[t].root && Region(v, owner[t].depth + 1) == owner[t].region * 512 + i)
    ensures Hit(ram', t0, v, d) == Hit(ram, t0, v, d)
    decreases 3 - d
  {
    hide Entry;
    RegionStep(v, d);
    var w0 := Entry(ram, t0, Index(v, d));
    if w0.present && d < 3 && !w0.large {
      assert EntryOk(ram, owner, t0, Index(v, d));
      LeafMissed(ram, ram', owner, t, i, w, w0.frame * TABLE, r, v, d + 1);
    }
  }

  /** An address that leads to the table and selects the entry ends at the new leaf. */
  lemma {:induction false} LeafTaken(ram: Memory, ram': Memory, owner: Owner, t: nat, i: nat, w: Pte, t0: nat, v: nat, d: nat)
    requires EntriesOk(ram, owner) && t in owner && LeafChange(ram, ram', owner, t, i, w)
    requires t0 in owner && owner[t0].depth == d <= owner[t].depth <= 3
    requires Leads(ram, t0, v, d, owner[t].depth, t) && Index(v, owner[t].depth) == i
    ensures Hit(ram', t0, v, d) == Leaf(owner[t].depth, w)
    decreases 3 - d
  {
    hide Entry;
    if d < owner[t].depth {
      var c := Entry(ram, t0, Index(v, d)).frame * TABLE;
      assert EntryOk(ram, owner, t0, Index(v, d));
      LeafTaken(ram, ram', owner, t, i, w, c, v, d + 1);
    }
  }

  // ---- MapMemory

  /** The state on the way down: table t at depth d serves virt, nothing is translated
      differently, and all that was written lies in tables of which the new ones were free. */
  ghost predicate Reached(m0: Machine, owner0: Owner, m: Machine, owner: Owner, first: nat, root: nat, virt: nat, d: nat, t: nat)
  {
    && d <= 3
    && TablesOk(m, owner, first)
    && Grows(m0.frames, owner0, m.frames, owner)
    && SameWalks(m0.ram, m.ram, owner0)
    && OnlyTables(m0.ram, m.ram, owner)
    && root in owner && owner[root] == Slot(root, 0, 0)
    && t in owner && owner[t] == Slot(root, d, Region(virt, d))
    && Leads(m.ram, root, virt, 0, d, t)
  }

  /** The page is mapped by a 2 MiB leaf. */
  ghost predicate BigLeaf(ram: Memory, root: nat, virt: nat) {
    Hit(ram, root, virt, 0).Leaf? && Hit(ram, root, virt, 0).depth == 2
  }

  lemma DescendNotBig(m0: Machine, owner0: Owner, m: Machine, owner: Owner, first: nat, root: nat, virt: nat, d: nat, t: nat)
    requires Reached(m0, owner0, m, owner, first, root, virt, d, t) && d < 3
    requires IsRoot(owner0, root) && (d == 2 ==> !BigLeaf(m0.ram, root, virt))
    ensures !(Entry(m.ram, t, Index(virt, d)).present && Entry(m.ram, t, Index(virt, d)).large)
  {
    hide Entry;
    if d == 2 {
      LeadsHit(m.ram, root, virt, 0, 2, t);
    } else {
      assert EntryOk(m.ram, owner, t, Index(virt, d));
    }
  }

  lemma StepsCompose(m0: Machine, owner0: Owner, m: Machine, owner: Owner, m': Machine, owner': Owner)
    requires Grows(m0.frames, owner0, m.frames, owner) && Grows(m.frames, owner, m'.frames, owner')
    requires SameWalks(m0.ram, m.ram, owner0) && SameWalks(m.ram, m'.ram, owner)
    requires OnlyTables(m0.ram, m.ram, owner) && OnlyTables(m.ram, m'.ram, owner')
    ensures Grows(m0.frames, owner0, m'.frames, owner')
    ensures SameWalks(m0.ram, m'.ram, owner0)
    ensures OnlyTables(m0.ram, m'.ram, owner')
  {
    hide Entry;
    forall r, v: nat | IsRoot(owner0, r) ensures Hit(m'.ram, r, v, 0) == Hit(m0.ram, r, v, 0) {
      assert IsRoot(owner, r);
    }
    forall b | forall t :: t in owner' ==> !(t <= b < t + TABLE) ensures Peek(m'.ram, b) == Peek(m0.ram, b) {
      assert forall t :: t in owner ==> t in owner';
      assert Peek(m'.ram, b) == Peek(m.ram, b);
    }
  }

  lemma Descend(m0: Machine, owner0: Owner, m: Machine, owner: Owner, first: nat, root: nat, virt: nat, d: nat, t: nat)
    requires Reached(m0, owner0, m, owner, first, root, virt, d, t) && d < 3
    requires IsRoot(owner0, root) && (d == 2 ==> !BigLeaf(m0.ram, root, virt))
    ensures !NextLevel(m, t, Index(virt, d)).Fault?
    ensures NextLevel(m, t, Index(virt, d)).Done? ==>
              var (m', c) := NextLevel(m, t, Index(virt, d)).value;
              Reached(m0, owner0, m', OwnerAfter(m, owner, t, Index(virt, d)), first, root, virt, d + 1, c)
  {
    hide Entry;
    var i := Index(virt, d);
    DescendNotBig(m0, owner0, m, owner, first, root, virt, d, t);
    NextLevelOk(m, owner, first, t, i);
    if NextLevel(m, t, i).Done? {
      var (m', c) := NextLevel(m, t, i).value;
      var owner' := OwnerAfter(m, owner, t, i);
      assert Leads(m'.ram, root, virt, 0, d + 1, c) by {
        LeadsKept(m.ram, m'.ram, owner, root, virt, 0, d, t);
        LeadsFurther(m'.ram, root, virt, 0, d, t, c);
      }
      RegionStep(virt, d);
      StepsCompose(m0, owner0, m, owner, m', owner');
    }
  }

  lemma LocateOk(m: Machine, owner: Owner, first: nat, root: nat, virt: nat, size: PageSize) returns (owner': Owner)
    requires TablesOk(m, owner, first) && IsRoot(owner, root)
    requires size == Size4K ==> !BigLeaf(m.ram, root, virt)
    ensures !Locate(m, root, virt, size).Fault?
    ensures Locate(m, root, virt, size).Done? ==>
              var (m', t) := Locate(m, root, virt, size).value;
              Reached(m, owner, m', owner', first, root, virt, LeafDepth(size), t)
  {
    hide Entry;
    owner' := owner;
    var i0, i1, i2 := Index(virt, 0), Index(virt, 1), Index(virt, 2);
    assert Reached(m, owner, m, owner, first, root, virt, 0, root);
    Descend(m, owner, m, owner, first, root, virt, 0, root);
    if NextLevel(m, root, i0).Done? {
      var (m1, pdpt) := NextLevel(m, root, i0).value;
      var owner1 := OwnerAfter(m, owner, root, i0);
      Descend(m, owner, m1, owner1, first, root, virt, 1, pdpt);
      if NextLevel(m1, pdpt, i1).Done? {
        var (m2, pd) := NextLevel(m1, pdpt, i1).value;
        owner' := OwnerAfter(m1, owner1, pdpt, i1);
        if size == Size4K {
          Descend(m, owner, m2, owner', first, root, virt, 2, pd);
          owner' := OwnerAfter(m2, owner', pd, i2);
        }
      }
    }
  }

  /** The pages of the two sizes that contain both addresses. */
  predicate SamePage(v: nat, virt: nat, size: PageSize) {
    Region(v, LeafDepth(size) + 1) == Region(virt, LeafDepth(size) + 1)
  }

  /** The leaf serves a request: right depth, right frame. */
  ghost predicate Serves(leaf: Leaf, phys: nat, size: PageSize) {
    && leaf.Leaf? && leaf.depth == LeafDepth(size)
    && leaf.entry.frame == phys / PAGE % FRAME_LIMIT && leaf.entry.present
  }

  lemma LeafWritten(m: Machine, owner: Owner, first: nat, t: nat, virt: nat, phys: nat, size: PageSize, user: bool)
    requires TablesOk(m, owner, first) && t in owner && owner[t].depth == LeafDepth(size)
    ensures var i := LeafIndex(virt, size);
            var ram' := SetLeaf(m.ram, t, i, phys, size, user);
            && LeafChange(m.ram, ram', owner, t, i, LeafEntry(Entry(m.ram, t, i), phys, size, user))
            && (forall b :: !(t <= b < t + TABLE) ==> Peek(ram', b) == Peek(m.ram, b))
  {
    hide Entry;
    var i := LeafIndex(virt, size);
    var e := LeafEntry(Entry(m.ram, t, i), phys, size, user);
    assert EntryOk(m.ram, owner, t, i);
    WriteEntryBytes(m.ram, t, i, e);
    forall t', j: nat | t' in owner && j < 512
      ensures Entry(SetEntry(m.ram, t, i, e), t', j) == if t' == t && j == i then e else Entry(m.ram, t', j)
    {
      WriteEntry(m.ram, t, i, e, t', j);
    }
  }

  /** What the walk of any address in any address space gives after the leaf is written. */
  lemma LeafSeen(m: Machine, owner: Owner, first: nat, root: nat, t: nat, virt: nat, phys: nat, size: PageSize, user: bool, r: nat, v: nat)
    requires TablesOk(m, owner, first) && IsRoot(owner, r) && owner[r] == Slot(r, 0, 0) && IsRoot(owner, root)
    requires t in owner && owner[t] == Slot(root, LeafDepth(size), Region(virt, LeafDepth(size)))
    requires Leads(m.ram, root, virt, 0, LeafDepth(size), t)
    ensures var i := LeafIndex(virt, size);
            var ram' := SetLeaf(m.ram, t, i, phys, size, user);
            Hit(ram', r, v, 0) ==
              if r == root && SamePage(v, virt, size) then Leaf(LeafDepth(size), LeafEntry(Entry(m.ram, t, i), phys, size, user))
              else Hit(m.ram, r, v, 0)
  {
    hide Entry;
    var d := LeafDepth(size);
    var i := LeafIndex(virt, size);
    var ram' := SetLeaf(m.ram, t, i, phys, size, user);
    var e := LeafEntry(Entry(m.ram, t, i), phys, size, user);
    LeafWritten(m, owner, first, t, virt, phys, size, user);
    RegionStep(virt, d);
    if r == root && SamePage(v, virt, size) {
      SameRegionAbove(v, virt, d, d + 1);
      LeadsForRegion(m.ram, root, virt, v, 0, d, t);
      LeafTaken(m.ram, ram', owner, t, i, e, root, v, 0);
    } else {
      LeafMissed(m.ram, ram', owner, t, i, e, r, r, v, 0);
    }
  }

  /** Every address space before and after: only the requested page of the requested space is
      translated anew. */
  ghost predicate Remapped(ram: Memory, ram': Memory, owner: Owner, root: nat, virt: nat, phys: nat, size: PageSize) {
    forall r, v: nat :: IsRoot(owner, r) ==>
      if r == root && SamePage(v, virt, size) then Serves(Hit(ram', r, v, 0), phys, size)
      else Hit(ram', r, v, 0) == Hit(ram, r, v, 0)
  }

  lemma LeafKeepsTables(m0: Machine, owner0: Owner, m: Machine, owner: Owner, first: nat, root: nat, virt: nat, t: nat,
                        phys: nat, size: PageSize, user: bool)
    requires Reached(m0, owner0, m, owner, first, root, virt, LeafDepth(size), t)
    ensures var ram' := SetLeaf(m.ram, t, LeafIndex(virt, size), phys, size, user);
            TablesOk(m.(ram := ram'), owner, first) && OnlyTables(m0.ram, ram', owner)
  {
    hide Entry;
    var i := LeafIndex(virt, size);
    var ram' := SetLeaf(m.ram, t, i, phys, size, user);
    LeafWritten(m, owner, first, t, virt, phys, size, user);
    LeafEntriesOk(m.ram, ram', owner, t, i, LeafEntry(Entry(m.ram, t, i), phys, size, user));
    forall b | forall t :: t in owner ==> !(t <= b < t + TABLE) ensures Peek(ram', b) == Peek(m0.ram, b) {
      assert Peek(m.ram, b) == Peek(m0.ram, b);
    }
  }

  lemma LeafRemaps(m0: Machine, owner0: Owner, m: Machine, owner: Owner, first: nat, root: nat, virt: nat, t: nat,
                   phys: nat, size: PageSize, user: bool)
    requires Reached(m0, owner0, m, owner, first, root, virt, LeafDepth(size), t) && SlotsOk(owner0)
    ensures Remapped(m0.ram, SetLeaf(m.ram, t, LeafIndex(virt, size), phys, size, user), owner0, root, virt, phys, size)
  {
    hide Entry;
    var ram' := SetLeaf(m.ram, t, LeafIndex(virt, size), phys, size, user);
    forall r, v: nat | IsRoot(owner0, r)
      ensures if r == root && SamePage(v, virt, size) then Serves(Hit(ram', r, v, 0), phys, size)
              else Hit(ram', r, v, 0) == Hit(m0.ram, r, v, 0)
    {
      assert IsRoot(owner, r);
      assert Hit(m.ram, r, v, 0) == Hit(m0.ram, r, v, 0);
      LeafSeen(m, owner, first, root, t, virt, phys, size, user, r, v);
    }
  }

  /** `MapMemory` against the hardware walk, for any addresses, aligned or not: the page that
      contains virt now goes to the frame that contains phys, every other address of every address
      space is translated as before, and only table frames were written. */
  lemma MapPageOk(m: Machine, owner: Owner, first: nat, root: nat, virt: nat, phys: nat, size: PageSize, user: bool)
      returns (owner': Owner)
    requires TablesOk(m, owner, first) && IsRoot(owner, root)
    requires size == Size4K ==> !BigLeaf(m.ram, root, virt)
    ensures !MapPage(m, root, virt, phys, size, user).Fault?
    ensures MapPage(m, root, virt, phys, size, user).Done? ==>
              var (m', ok) := MapPage(m, root, virt, phys, size, user).value;
              && ok
              && TablesOk(m', owner', first)
              && Grows(m.frames, owner, m'.frames, owner')
              && OnlyTables(m.ram, m'.ram, owner')
              && Remapped(m.ram, m'.ram, owner, root, virt, phys, size)
  {
    hide Entry;
    owner' := LocateOk(m, owner, first, root, virt, size);
    if Locate(m, root, virt, size).Done? {
      var (m1, t) := Locate(m, root, virt, size).value;
      LeafKeepsTables(m, owner, m1, owner', first, root, virt, t, phys, size, user);
      LeafRemaps(m, owner, m1, owner', first, root, virt, t, phys, size, user);
    }
  }

  /** Walks see only the entries of tables. */
  lemma {:induction false} SameTablesHit(ram: Memory, ram': Memory, owner: Owner, t0: nat, v: nat, d: nat)
    requires EntriesOk(ram, owner) && t0 in owner && owner[t0].depth == d <= 3
    requires forall t, j: nat :: t in owner && j < 512 ==> Entry(ram', t, j) == Entry(ram, t, j)
    ensures Hit(ram', t0, v, d) == Hit(ram, t0, v, d)
    decreases 3 - d
  {
    hide Entry;
    var e := Entry(ram, t0, Index(v, d));
    assert EntryOk(ram, owner, t0, Index(v, d));
    if e.present && d < 3 && !e.large {
      SameTablesHit(ram, ram', owner, e.frame * TABLE, v, d + 1);
    }
  }

  // ---- what that means for addresses

  /** A 4 KiB mapping sends every address of the page to phys plus offset. */
  lemma SmallPageTranslates(ram: Memory, root: nat, phys: nat, v: nat)
    requires Serves(Hit(ram, root, v, 0), phys, Size4K)
    ensures Walk(ram, root, v) == To(phys / PAGE % FRAME_LIMIT * PAGE + v % PAGE)
    ensures phys % PAGE == 0 && phys < PHYS_LIMIT ==> Walk(ram, root, v) == To(phys + v % PAGE)
  {
    FrameNumber(phys);
  }

  lemma FrameNumber(phys: nat)
    ensures phys % PAGE == 0 && phys < PHYS_LIMIT ==> phys / PAGE % FRAME_LIMIT * PAGE == phys
  {
    if phys % PAGE == 0 && phys < PHYS_LIMIT {
      assert phys / PAGE < FRAME_LIMIT;
    }
  }

  /** A 2 MiB mapping sends the page to phys plus offset exactly when phys is 2 MiB-aligned:
      the low bits of a misaligned phys are reserved or ignored by the hardware. */
  lemma LargePageTranslates(ram: Memory, root: nat, phys: nat, v: nat)
    requires Serves(Hit(ram, root, v, 0), phys, Size2M) && phys % PAGE == 0 && phys < PHYS_LIMIT
    ensures Walk(ram, root, v) == To(phys + v % LARGE_PAGE) <==> phys % LARGE_PAGE == 0
  {
    FrameNumber(phys);
    var f := phys / PAGE % FRAME_LIMIT;
    assert phys == f / 512 * LARGE_PAGE + f % 512 * PAGE;
    Arith.DivMod(phys, LARGE_PAGE, f / 512, f % 512 * PAGE);
  }

  // ---- permissions

  /** Every present entry that the walk of an address meets, from the table on, is writable and executable. */
  ghost predicate PathOpen(ram: Memory, table: nat, v: nat, d: nat)
    requires d <= 3
    decreases 3 - d
  {
    var e := Entry(ram, table, Index(v, d));
    e.present ==> e.writable && e.reserved == 0 && (d < 3 && !e.large ==> PathOpen(ram, e.frame * TABLE, v, d + 1))
  }

  /** So no address of any space is write-protected or marked no-execute. */
  lemma {:induction false} EveryPathOpen(ram: Memory, owner: Owner, t: nat, v: nat, d: nat)
    requires EntriesOk(ram, owner) && t in owner && owner[t].depth == d <= 3
    ensures PathOpen(ram, t, v, d)
    decreases 3 - d
  {
    hide Entry;
    assert EntryOk(ram, owner, t, Index(v, d));
    var e := Entry(ram, t, Index(v, d));
    if e.present && d < 3 && !e.large {
      EveryPathOpen(ram, owner, e.frame * TABLE, v, d + 1);
    }
  }

  // ---- the words stored

  /** The 64-bit word of entry i. */
  function EntryWord(m: Memory, t: nat, i: nat): nat {
    Word(m, t + 8 * i)
  }

  /** Where a field of a word begins, and its width, as powers of two. */
  function Field(w: nat, from: nat, width: nat): nat
    requires from > 0 && width > 0
  {
    w / from % width
  }

  lemma SetEntryWord(m: Memory, t: nat, i: nat, e: Pte)
    requires e.Fits()
    ensures EntryWord(SetEntry(m, t, i, e), t, i) == Pack(e)
  {
    PackFits(e);
    hide Pack;
    SetWordReads(m, t + 8 * i, Pack(e));
  }

  /** What a mapping makes of a word: present and writable are set, page size and user as asked, the frame number in bits
      12 to 51, and every other bit is what it was. */
  ghost predicate LeafBits(w0: nat, w: nat, phys: nat, size: PageSize, user: bool) {
    && w < WORD_LIMIT
    && Field(w, 1, 4) == 3
    && Field(w, 4, 2) == (if user then 1 else Field(w0, 4, 2))
    && Field(w, 8, 16) == Field(w0, 8, 16)
    && Field(w, 128, 2) == (if size == Size2M then 1 else Field(w0, 128, 2))
    && Field(w, 256, 16) == Field(w0, 256, 16)
    && Field(w, 4096, 0x100_0000_0000) == phys / 4096 % 0x100_0000_0000
    && Field(w, 0x10_0000_0000_0000, 4096) == Field(w0, 0x10_0000_0000_0000, 4096)
  }

  lemma LeafWord(m: Memory, t: nat, i: nat, phys: nat, size: PageSize, user: bool)
    ensures LeafBits(EntryWord(m, t, i), EntryWord(SetLeaf(m, t, i, phys, size, user), t, i), phys, size, user)
  {
    hide Pack, Unpack, Word, SetWord;
    var w0, w := EntryWord(m, t, i), EntryWord(SetLeaf(m, t, i, phys, size, user), t, i);
    var e := LeafEntry(Entry(m, t, i), phys, size, user);
    SetEntryWord(m, t, i, e);
    UnpackPack(e);
    PackFits(e);
    PteBits(w0);
    PteBits(w);
    LowBits(w);
  }

  lemma LowBits(w: nat)
    ensures w / 1 % 4 == 2 * (w / 2 % 2) + w % 2
  {
    Arith.DivMod(w, 4, w / 2 / 2, 2 * (w / 2 % 2) + w % 2);
  }

  /** A whole call: the walk of the address ends at an entry of the table that the way down leads to, and the word there
      has become so. */
  lemma MapWord(m: Machine, owner: Owner, first: nat, root: nat, virt: nat, phys: nat, size: PageSize, user: bool)
    requires TablesOk(m, owner, first) && IsRoot(owner, root)
    requires size == Size4K ==> !BigLeaf(m.ram, root, virt)
    requires MapPage(m, root, virt, phys, size, user).Done?
    ensures Locate(m, root, virt, size).Done?
    ensures var (m1, t) := Locate(m, root, virt, size).value;
            var ram' := MapPage(m, root, virt, phys, size, user).value.0.ram;
            && LeafBits(EntryWord(m1.ram, t, LeafIndex(virt, size)), EntryWord(ram', t, LeafIndex(virt, size)), phys, size, user)
            && Hit(ram', root, virt, 0) == Leaf(LeafDepth(size), Entry(ram', t, LeafIndex(virt, size)))
  {
    hide Entry, LeafBits, EntryWord, Hit, SetLeaf, Locate, EntriesOk, Held;
    var owner1 := LocateOk(m, owner, first, root, virt, size);
    var (m1, t) := Locate(m, root, virt, size).value;
    assert t != 0;
    var i := LeafIndex(virt, size);
    LeafWord(m1.ram, t, i, phys, size, user);
    assert SamePage(virt, virt, size);
    LeafSeen(m1, owner1, first, root, t, virt, phys, size, user, root, virt);
    LeafWritten(m1, owner1, first, t, virt, phys, size, user);
  }

  /** The word of a fresh link is the table's address with present and writable set. */
  lemma LinkWord(m: Machine, owner: Owner, first: nat, t: nat, i: nat)
    requires TablesOk(m, owner, first)
    requires t in owner && i < 512 && owner[t].depth < 3 && !Entry(m.ram, t, i).present
    requires Claim(m).Done?
    ensures NextLevel(m, t, i).Done?
    ensures EntryWord(NextLevel(m, t, i).value.0.ram, t, i) == NextLevel(m, t, i).value.1 + 3
  {
    hide Entry, SetEntry, EntryWord;
    var (m1, n) := Claim(m).value;
    assert EntryOk(m.ram, owner, t, i);
    ClaimKeepsTables(m, owner, first, t, i);
    ClaimSpec(m, first);
    LinkTarget(n, first, FirstFree(m.frames, 0), |m.frames|);
    SetEntryWord(m1.ram, t, i, TableEntry(EMPTY, n));
  }

  // ---- a 4 KiB mapping inside a 2 MiB one

  /** Where a 4 KiB request for an address that a 2 MiB leaf maps writes its entry: the start of the mapped memory,
      taken for a table. */
  ghost function Mistaken(ram: Memory, root: nat, virt: nat): nat
    requires BigLeaf(ram, root, virt)
  {
    TableOf(Hit(ram, root, virt, 0).entry)
  }

  /** The three entries that lead the walk of an address to its 2 MiB leaf. */
  ghost predicate OnPath(ram: Memory, root: nat, virt: nat, t: nat, i: nat) {
    var pdpt := Entry(ram, root, Index(virt, 0)).frame * TABLE;
    var pd := Entry(ram, pdpt, Index(virt, 1)).frame * TABLE;
    || (t == root && i == Index(virt, 0))
    || (t == pdpt && i == Index(virt, 1))
    || (t == pd && i == Index(virt, 2))
  }

  /** The walk to a 2 MiB leaf, and what `MapMemory` makes of it. */
  lemma BigLeafPath(m: Machine, owner: Owner, first: nat, root: nat, virt: nat)
    requires TablesOk(m, owner, first) && IsRoot(owner, root) && BigLeaf(m.ram, root, virt)
    ensures var pdpt := Entry(m.ram, root, Index(virt, 0)).frame * TABLE;
            var pd := Entry(m.ram, pdpt, Index(virt, 1)).frame * TABLE;
            && root > 0 && pdpt in owner && pdpt > 0 && pd in owner && pd > 0
            && root % TABLE == 0 && pdpt % TABLE == 0 && pd % TABLE == 0
            && Links(m.ram, root, Index(virt, 0), pdpt) && Links(m.ram, pdpt, Index(virt, 1), pd)
            && root != pdpt && pdpt != pd && root != pd
            && Hit(m.ram, root, virt, 0) == Leaf(2, Entry(m.ram, pd, Index(virt, 2)))
            && Entry(m.ram, pd, Index(virt, 2)).present && Entry(m.ram, pd, Index(virt, 2)).large
            && Locate(m, root, virt, Size4K) == Done((m, Mistaken(m.ram, root, virt)))
  {
    hide Entry, TableOf, Held, Layout;
    assert EntryOk(m.ram, owner, root, Index(virt, 0));
    var pdpt := Entry(m.ram, root, Index(virt, 0)).frame * TABLE;
    assert Hit(m.ram, root, virt, 0) == Hit(m.ram, pdpt, virt, 1);
    assert EntryOk(m.ram, owner, pdpt, Index(virt, 1));
    var pd := Entry(m.ram, pdpt, Index(virt, 1)).frame * TABLE;
    assert Hit(m.ram, pdpt, virt, 1) == Hit(m.ram, pd, virt, 2);
    assert Hit(m.ram, pd, virt, 2) == Leaf(2, Entry(m.ram, pd, Index(virt, 2)));
    PointerToTable(m, owner, first, Entry(m.ram, root, Index(virt, 0)));
    PointerToTable(m, owner, first, Entry(m.ram, pdpt, Index(virt, 1)));
  }

  /** The pointer made of an entry that links a table is that table. */
  lemma PointerToTable(m: Machine, owner: Owner, first: nat, e: Pte)
    requires TablesOk(m, owner, first) && e.frame * TABLE in owner
    ensures TableOf(e) == e.frame * TABLE
  {
    hide EntriesOk, SlotsOk;
    var t := e.frame * TABLE;
    assert t in Held(m.frames);
    var i :| 0 <= i < |m.frames| && !m.frames[i].free && m.frames[i].ptr == t;
    FortyBits(e.frame);
  }

  /** The pointer followed is the one the processor follows if and only if the table lies below 2^40. */
  lemma PointerExactIff(e: Pte)
    ensures TableOf(e) == e.frame * TABLE <==> e.frame < 0x1000_0000
  {
    FortyBits(e.frame);
  }

  /** A write off the path leaves the walk of the address as it is. */
  lemma OffPathHit(m: Machine, owner: Owner, first: nat, root: nat, virt: nat, p: nat, i: nat, e: Pte)
    requires TablesOk(m, owner, first) && IsRoot(owner, root) && BigLeaf(m.ram, root, virt)
    requires p % TABLE == 0 && i < 512 && e.Fits() && !OnPath(m.ram, root, virt, p, i)
    ensures Hit(SetEntry(m.ram, p, i, e), root, virt, 0) == Hit(m.ram, root, virt, 0)
  {
    hide Entry, SetEntry;
    BigLeafPath(m, owner, first, root, virt);
    var pdpt := Entry(m.ram, root, Index(virt, 0)).frame * TABLE;
    var pd := Entry(m.ram, pdpt, Index(virt, 1)).frame * TABLE;
    var ram' := SetEntry(m.ram, p, i, e);
    WriteEntry(m.ram, p, i, e, root, Index(virt, 0));
    WriteEntry(m.ram, p, i, e, pdpt, Index(virt, 1));
    WriteEntry(m.ram, p, i, e, pd, Index(virt, 2));
    assert Hit(ram', root, virt, 0) == Hit(ram', pdpt, virt, 1);
    assert Hit(ram', pdpt, virt, 1) == Hit(ram', pd, virt, 2);
  }

  /** The failing family: `GetEntryNextLevel` does not look at the page-size bit, so a 4 KiB
      request for an address that a 2 MiB leaf maps treats the leaf's memory as a table. At address 0 that is no
      table, and the call fails with nothing changed. Anywhere else it reports success and writes an entry there;
      when the memory is no table, this overwrites mapped data and changes no translation at all. */
  lemma SmallInsideLarge(m: Machine, owner: Owner, first: nat, root: nat, virt: nat, phys: nat, user: bool)
    requires TablesOk(m, owner, first) && IsRoot(owner, root) && BigLeaf(m.ram, root, virt)
    ensures MapPage(m, root, virt, phys, Size4K, user).Done?
    ensures var (m', ok) := MapPage(m, root, virt, phys, Size4K, user).value;
            var p := Mistaken(m.ram, root, virt);
            && (p == 0 ==> !ok && m' == m)
            && (p != 0 ==>
                  && ok && m'.frames == m.frames
                  && m'.ram == SetEntry(m.ram, p, Index(virt, 3), LeafEntry(Entry(m.ram, p, Index(virt, 3)), phys, Size4K, user))
                  && Entry(m'.ram, p, Index(virt, 3)) == LeafEntry(Entry(m.ram, p, Index(virt, 3)), phys, Size4K, user))
            && (p !in owner ==> SameWalks(m.ram, m'.ram, owner))
  {
    hide Entry;
    BigLeafPath(m, owner, first, root, virt);
    var p, i := Mistaken(m.ram, root, virt), Index(virt, 3);
    if p != 0 {
      var e := LeafEntry(Entry(m.ram, p, i), phys, Size4K, user);
      var ram' := SetEntry(m.ram, p, i, e);
      WriteEntry(m.ram, p, i, e, p, i);
      if p !in owner {
        forall r, v: nat | IsRoot(owner, r) ensures Hit(ram', r, v, 0) == Hit(m.ram, r, v, 0) {
          StrayWriteHit(m.ram, owner, p, i, e, r, v, 0);
        }
      }
    }
  }

  /** Writing outside the tables changes no walk. */
  lemma {:induction false} StrayWriteHit(ram: Memory, owner: Owner, p: nat, i: nat, e: Pte, t0: nat, v: nat, d: nat)
    requires SlotsOk(owner) && EntriesOk(ram, owner) && p !in owner && p % TABLE == 0 && i < 512 && e.Fits()
    requires t0 in owner && owner[t0].depth == d <= 3
    ensures Hit(SetEntry(ram, p, i, e), t0, v, d) == Hit(ram, t0, v, d)
    decreases 3 - d
  {
    hide Entry;
    WriteEntry(ram, p, i, e, t0, Index(v, d));
    assert EntryOk(ram, owner, t0, Index(v, d));
    var w := Entry(ram, t0, Index(v, d));
    if w.present && d < 3 && !w.large {
      StrayWriteHit(ram, owner, p, i, e, w.frame * TABLE, v, d + 1);
    }
  }

  /** So the request is met if and only if no 2 MiB leaf maps the address, or that leaf already
      sends it to phys; unless the entry it writes happens to lie on the path of the address itself. */
  lemma SmallRequestMetIff(m: Machine, owner: Owner, first: nat, root: nat, virt: nat, phys: nat, user: bool)
    requires TablesOk(m, owner, first) && IsRoot(owner, root) && phys % PAGE == 0 && phys < PHYS_LIMIT
    requires BigLeaf(m.ram, root, virt) ==> !OnPath(m.ram, root, virt, Mistaken(m.ram, root, virt), Index(virt, 3))
    requires MapPage(m, root, virt, phys, Size4K, user).Done?
    ensures var m' := MapPage(m, root, virt, phys, Size4K, user).value.0;
            Walk(m'.ram, root, virt) == To(phys + virt % PAGE)
            <==> !BigLeaf(m.ram, root, virt) || Walk(m.ram, root, virt) == To(phys + virt % PAGE)
  {
    hide Entry;
    var m' := MapPage(m, root, virt, phys, Size4K, user).value.0;
    if BigLeaf(m.ram, root, virt) {
      SmallInsideLarge(m, owner, first, root, virt, phys, user);
      var p, i := Mistaken(m.ram, root, virt), Index(virt, 3);
      OffPathHit(m, owner, first, root, virt, p, i, LeafEntry(Entry(m.ram, p, i), phys, Size4K, user));
      assert Hit(m'.ram, root, virt, 0) == Hit(m.ram, root, virt, 0);
    } else {
      var owner' := MapPageOk(m, owner, first, root, virt, phys, Size4K, user);
      assert SamePage(virt, virt, Size4K);
      assert Serves(Hit(m'.ram, root, virt, 0), phys, Size4K);
      SmallPageTranslates(m'.ram, root, phys, virt);
    }
  }

  /** The exceptions: the entry written is one of the three that lead to the address. If it is the leaf itself, the
      leaf is rewritten; if it is a link, the walk goes on in the memory at phys, taken for the table of the level
      below. */
  lemma SmallOnPathWalk(m: Machine, owner: Owner, first: nat, root: nat, virt: nat, phys: nat, user: bool)
    requires TablesOk(m, owner, first) && IsRoot(owner, root) && BigLeaf(m.ram, root, virt)
    requires phys % PAGE == 0 && phys < PHYS_LIMIT
    requires OnPath(m.ram, root, virt, Mistaken(m.ram, root, virt), Index(virt, 3))
    ensures MapPage(m, root, virt, phys, Size4K, user).Done?
    ensures var ram' := MapPage(m, root, virt, phys, Size4K, user).value.0.ram;
            var p := Mistaken(m.ram, root, virt);
            var pdpt := Entry(m.ram, root, Index(virt, 0)).frame * TABLE;
            Hit(ram', root, virt, 0) ==
              if p == root then Hit(ram', phys, virt, 1)
              else if p == pdpt then Hit(ram', phys, virt, 2)
              else Leaf(2, LeafEntry(Entry(m.ram, p, Index(virt, 3)), phys, Size4K, user))
  {
    hide Entry, SetEntry, TableOf;
    BigLeafPath(m, owner, first, root, virt);
    SmallInsideLarge(m, owner, first, root, virt, phys, user);
    FrameNumber(phys);
    var ram' := MapPage(m, root, virt, phys, Size4K, user).value.0.ram;
    var p, i := Mistaken(m.ram, root, virt), Index(virt, 3);
    var e := LeafEntry(Entry(m.ram, p, i), phys, Size4K, user);
    var pdpt := Entry(m.ram, root, Index(virt, 0)).frame * TABLE;
    var pd := Entry(m.ram, pdpt, Index(virt, 1)).frame * TABLE;
    hide MapPage, TablesOk, Mistaken;
    WriteEntry(m.ram, p, i, e, root, Index(virt, 0));
    WriteEntry(m.ram, p, i, e, pdpt, Index(virt, 1));
    WriteEntry(m.ram, p, i, e, pd, Index(virt, 2));
    if p != root {
      assert Hit(ram', root, virt, 0) == Hit(ram', pdpt, virt, 1);
      if p != pdpt {
        assert Hit(ram', pdpt, virt, 1) == Hit(ram', pd, virt, 2);
      }
    }
  }

  /** A page directory that maps itself, in particular: the request rewrites the very leaf it came through,
      which stays a 2 MiB leaf, and is met if and only if phys is as far from its 2 MiB page as virt is from its
      own and at most one page (the hardware ignores that bit). */
  lemma SelfMapped(m: Machine, owner: Owner, first: nat, root: nat, virt: nat, phys: nat, user: bool)
    requires TablesOk(m, owner, first) && IsRoot(owner, root) && BigLeaf(m.ram, root, virt)
    requires phys % PAGE == 0 && phys < PHYS_LIMIT && Index(virt, 2) == Index(virt, 3)
    requires var pdpt := Entry(m.ram, root, Index(virt, 0)).frame * TABLE;
             Mistaken(m.ram, root, virt) == Entry(m.ram, pdpt, Index(virt, 1)).frame * TABLE
    ensures MapPage(m, root, virt, phys, Size4K, user).Done?
    ensures var m' := MapPage(m, root, virt, phys, Size4K, user).value.0;
            Walk(m'.ram, root, virt) == To(phys + virt % PAGE)
            <==> phys % LARGE_PAGE == Index(virt, 3) * PAGE && Index(virt, 3) <= 1
  {
    hide Entry, MapPage, TableOf, Translate;
    BigLeafPath(m, owner, first, root, virt);
    SmallOnPathWalk(m, owner, first, root, virt, phys, user);
    var p := Mistaken(m.ram, root, virt);
    RewrittenLeaf(phys, virt, LeafEntry(Entry(m.ram, p, Index(virt, 3)), phys, Size4K, user));
  }

  lemma RewrittenLeaf(phys: nat, virt: nat, e: Pte)
    requires phys % PAGE == 0 && phys < PHYS_LIMIT && e.frame == phys / PAGE % FRAME_LIMIT
    ensures Translate(Leaf(2, e), virt) == To(phys + virt % PAGE)
            <==> phys % LARGE_PAGE == Index(virt, 3) * PAGE && Index(virt, 3) <= 1
  {
    var q, r := e.frame / 512, e.frame % 512;
    LargeParts(phys, e.frame);
    PageParts(virt);
  }

  lemma LargeParts(phys: nat, f: nat)
    requires phys % PAGE == 0 && phys < PHYS_LIMIT && f == phys / PAGE % FRAME_LIMIT
    ensures phys == f / 512 * LARGE_PAGE + f % 512 * PAGE && phys % LARGE_PAGE == f % 512 * PAGE
  {
    FrameNumber(phys);
    assert phys == f * PAGE;
    Arith.DivMod(phys, LARGE_PAGE, f / 512, f % 512 * PAGE);
  }

  lemma PageParts(virt: nat)
    ensures virt % LARGE_PAGE == Index(virt, 3) * PAGE + virt % PAGE
  {
    var v := virt / PAGE;
    Arith.DivMod(virt, LARGE_PAGE, v / 512, v % 512 * PAGE + virt % PAGE);
  }

  // ---- one path to each table

  /** The table reached from a root by a list of indices, through present entries that are no
      leaves; 0 when there is none. */
  function Follow(ram: Memory, root: nat, path: seq<nat>): nat
    decreases |path|
  {
    if path == [] then root
    else
      var p, i := Follow(ram, root, path[..|path| - 1]), path[|path| - 1];
      if p == 0 || i >= 512 || !Entry(ram, p, i).present || Entry(ram, p, i).large then 0
      else Entry(ram, p, i).frame * TABLE
  }

  ghost function PathNumber(path: seq<nat>): nat {
    if path == [] then 0 else PathNumber(path[..|path| - 1]) * 512 + path[|path| - 1]
  }

  lemma {:induction false} FollowSlot(m: Machine, owner: Owner, first: nat, root: nat, path: seq<nat>)
    requires TablesOk(m, owner, first) && IsRoot(owner, root) && |path| <= 3 && Follow(m.ram, root, path) != 0
    ensures var t := Follow(m.ram, root, path); t in owner && owner[t] == Slot(root, |path|, PathNumber(path))
    ensures forall i :: 0 <= i < |path| ==> path[i] < 512
    decreases |path|
  {
    hide Entry;
    if path != [] {
      var init, i := path[..|path| - 1], path[|path| - 1];
      FollowSlot(m, owner, first, root, init);
      assert EntryOk(m.ram, owner, Follow(m.ram, root, init), i);
      assert forall j :: 0 <= j < |init| ==> path[j] == init[j];
    }
  }

  lemma {:induction false} PathNumberUnique(p: seq<nat>, q: seq<nat>)
    requires |p| == |q| && PathNumber(p) == PathNumber(q)
    requires forall i :: 0 <= i < |p| ==> p[i] < 512 && q[i] < 512
    ensures p == q
    decreases |p|
  {
    if p != [] {
      Arith.QuotientUnique(512, PathNumber(p[..|p| - 1]), p[|p| - 1], PathNumber(q[..|q| - 1]), q[|q| - 1]);
      PathNumberUnique(p[..|p| - 1], q[..|q| - 1]);
      assert p == p[..|p| - 1] + [p[|p| - 1]] && q == q[..|q| - 1] + [q[|q| - 1]];
    }
  }

  /** Each table frame is reachable by at most one path from at most one PML4. */
  lemma OnePathToEachTable(m: Machine, owner: Owner, first: nat, r: nat, p: seq<nat>, r': nat, q: seq<nat>)
    requires TablesOk(m, owner, first) && IsRoot(owner, r) && IsRoot(owner, r') && |p| <= 3 && |q| <= 3
    requires Follow(m.ram, r, p) == Follow(m.ram, r', q) != 0
    ensures r == r' && p == q
  {
    hide Entry;
    FollowSlot(m, owner, first, r, p);
    FollowSlot(m, owner, first, r', q);
    PathNumberUnique(p, q);
  }
}
