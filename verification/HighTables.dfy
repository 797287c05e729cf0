/** Page tables at or above 2^40 (src/mm/paging/paging.c): there the 40-bit shift of `GetEntryNextLevel` loses part of the
    pointer, and mappings are written where the processor does not look. */
module HighTables {
  import opened Ram
  import opened Outcomes
  import opened Frames
  import opened PageFormat
  import opened Paging
  import opened AddressSpaces
  import Arith

  ghost predicate HighPool(m: Machine, first: nat, u: nat) {
    && Layout(m.frames, first) && UsedPrefix(m.frames, u)
    && TABLE_LIMIT <= first && first + PAGE * |m.frames| <= 2 * TABLE_LIMIT
  }

  ghost predicate EmptyTable(m: Memory, t: nat) {
    forall j: nat :: j < 512 ==> Entry(m, t, j) == EMPTY
  }

  /** Entry i of table t and the table c aside, all entries of all memory are what they were. */
  ghost predicate OthersKept(m: Memory, m': Memory, c: nat, t: nat, i: nat) {
    forall t': nat, j: nat :: t' % TABLE == 0 && t' != c && j < 512 && !(t' == t && j == i) ==> Entry(m', t', j) == Entry(m, t', j)
  }

  /** One fresh link: what the entries are afterwards. */
  lemma FreshHighLink(m: Machine, first: nat, u: nat, t: nat, i: nat)
    requires HighPool(m, first, u) && u < |m.frames|
    requires t % TABLE == 0 && 0 < t != first + PAGE * u && i < 512 && Entry(m.ram, t, i) == EMPTY
    ensures NextLevel(m, t, i).Done?
    ensures var (m', c) := NextLevel(m, t, i).value;
            && c == first + PAGE * u && HighPool(m', first, u + 1)
            && Entry(m'.ram, t, i) == TableEntry(EMPTY, c) && TableEntry(EMPTY, c).frame * TABLE == c
            && EmptyTable(m'.ram, c)
            && OthersKept(m.ram, m'.ram, c, t, i)
  {
    hide Entry, SetEntry, Claim, Held, Spare, Peek, Layout, UsedPrefix, FirstFree;
    HighNumbers(m, first, u);
    ClaimExtendsPrefix(m, first, u);
    ClaimSpec(m, first);
    var (m1, c) := Claim(m).value;
    var e := TableEntry(EMPTY, c);
    HighEntry(c);
    ClaimedEntries(m.ram, m1.ram, c, t, i);
    forall j: nat | j < 512 ensures Entry(SetEntry(m1.ram, t, i, e), c, j) == EMPTY {
      ClaimedEntries(m.ram, m1.ram, c, c, j);
      WriteEntry(m1.ram, t, i, e, c, j);
    }
    forall t': nat, j: nat | t' % TABLE == 0 && t' != c && j < 512 && !(t' == t && j == i)
      ensures Entry(SetEntry(m1.ram, t, i, e), t', j) == Entry(m.ram, t', j)
    {
      ClaimedEntries(m.ram, m1.ram, c, t', j);
      WriteEntry(m1.ram, t, i, e, t', j);
    }
    WriteEntry(m1.ram, t, i, e, t, i);
  }

  lemma HighNumbers(m: Machine, first: nat, u: nat)
    requires HighPool(m, first, u)
    ensures Layout(m.frames, first) && UsedPrefix(m.frames, u) && first % PAGE == 0
    ensures TABLE_LIMIT <= first && first + PAGE * |m.frames| <= 2 * TABLE_LIMIT
  {
  }

  lemma HighEntry(c: nat)
    requires c % PAGE == 0 && c < 2 * TABLE_LIMIT
    ensures TableEntry(EMPTY, c).frame * TABLE == c && TableEntry(EMPTY, c).Fits()
  {
    assert c / PAGE < FRAME_LIMIT;
  }

  lemma ClaimedEntries(m: Memory, m1: Memory, c: nat, t: nat, j: nat)
    requires c % TABLE == 0 && t % TABLE == 0 && j < 512 && AllZero(m1, c, c + PAGE)
    requires forall b :: !(c <= b < c + PAGE) ==> Peek(m1, b) == Peek(m, b)
    ensures if t == c then Entry(m1, t, j) == EMPTY else Entry(m1, t, j) == Entry(m, t, j)
  {
    if t == c {
      ZeroEntry(m1, c, j);
    } else {
      TablesApart(c, t);
      hide Peek;
      WordSame(m, m1, t + 8 * j);
    }
  }

  /** The first descent returns the fresh table itself; the second makes its pointer of the entry, and cuts it to 40 bits,
      while the processor follows all of it. */
  lemma SecondDescentAstray(m: Machine, first: nat, u: nat, t: nat, i: nat)
    requires HighPool(m, first, u) && u < |m.frames|
    requires t % TABLE == 0 && 0 < t != first + PAGE * u && i < 512 && Entry(m.ram, t, i) == EMPTY
    ensures NextLevel(m, t, i).Done?
    ensures var (m', c) := NextLevel(m, t, i).value;
            && Entry(m'.ram, t, i).frame * TABLE == c
            && NextLevel(m', t, i) == Done((m', c - TABLE_LIMIT)) && c - TABLE_LIMIT != c
  {
    HighNumbers(m, first, u);
    FreshHighLink(m, first, u, t, i);
    hide Entry, HighPool, OthersKept, EmptyTable, Claim;
    var (m', c) := NextLevel(m, t, i).value;
    Arith.DivMod(c, TABLE_LIMIT, 1, c - TABLE_LIMIT);
  }

  /** A whole run: two 2 MiB mappings in a new space whose tables lie above 2^40, over low memory that is zero. Both report
      success; the second page is not mapped. */
  lemma HighTablesLoseMappings(k: Kernel, first: nat, u: nat) returns (root: nat, m1: Machine, m2: Machine, m3: Machine)
    requires HighPool(k.m, first, u) && u + 4 <= |k.m.frames| && first > TABLE_LIMIT
    requires AllZero(k.m.ram, 0, TABLE_LIMIT)
    ensures DoCall(k, NewSpace) == Done(Kernel(m1, k.roots + [root]))
    ensures MapPage(m1, root, LARGE_PAGE, LARGE_PAGE, Size2M, false) == Done((m2, true))
    ensures MapPage(m2, root, 2 * LARGE_PAGE, LARGE_PAGE, Size2M, false) == Done((m3, true))
    ensures Walk(m3.ram, root, 2 * LARGE_PAGE) == NotMapped
  {
    hide Entry, SetEntry, Held, Spare, Peek, NextLevel, HighPool, DoCall, MapPage, LowEmpty, EmptyTable, Links, Walk, Layout, UsedPrefix;
    root := first + PAGE * u;
    NewHighSpace(k, first, u);
    m1 := DoCall(k, NewSpace).value.m;
    FirstHighMap(m1, first, u + 1, root);
    m2 := MapPage(m1, root, LARGE_PAGE, LARGE_PAGE, Size2M, false).value.0;
    SecondHighMap(m2, first, u + 3, root, first + PAGE * (u + 1), first + PAGE * (u + 2));
    m3 := MapPage(m2, root, 2 * LARGE_PAGE, LARGE_PAGE, Size2M, false).value.0;
  }

  lemma NewHighSpace(k: Kernel, first: nat, u: nat)
    requires HighPool(k.m, first, u) && u < |k.m.frames| && AllZero(k.m.ram, 0, TABLE_LIMIT)
    ensures DoCall(k, NewSpace).Done?
    ensures var k1 := DoCall(k, NewSpace).value;
            var root := first + PAGE * u;
            && k1.roots == k.roots + [root] && HighPool(k1.m, first, u + 1) && |k1.m.frames| == |k.m.frames|
            && EmptyTable(k1.m.ram, root) && LowEmpty(k1.m.ram)
  {
    hide Entry, Claim, Held, Spare, Peek, FirstFree, Layout, UsedPrefix;
    HighNumbers(k.m, first, u);
    ClaimExtendsPrefix(k.m, first, u);
    ClaimSpec(k.m, first);
    var (m1, c) := Claim(k.m).value;
    forall j: nat | j < 512 ensures Entry(m1.ram, c, j) == EMPTY {
      ZeroEntry(m1.ram, c, j);
    }
    forall t: nat, j: nat | t % TABLE == 0 && t < TABLE_LIMIT && j < 512 ensures Entry(m1.ram, t, j) == EMPTY {
      LowTable(t);
      ZeroEntry(m1.ram, t, j);
    }
  }

  lemma LowTable(t: nat)
    requires t % TABLE == 0 && t < TABLE_LIMIT
    ensures t + TABLE <= TABLE_LIMIT
  {
    var q := t / TABLE;
    assert t == TABLE * q;
  }

  /** Whatever is taken for a table below 2^40 is empty. */
  ghost predicate LowEmpty(m: Memory) {
    forall t: nat, j: nat :: t % TABLE == 0 && t < TABLE_LIMIT && j < 512 ==> Entry(m, t, j) == EMPTY
  }

  lemma FirstHighMap(m: Machine, first: nat, u: nat, root: nat)
    requires HighPool(m, first, u) && u + 2 <= |m.frames| && u > 0 && root == first + PAGE * (u - 1) && first > TABLE_LIMIT
    requires EmptyTable(m.ram, root) && LowEmpty(m.ram)
    ensures MapPage(m, root, LARGE_PAGE, LARGE_PAGE, Size2M, false).Done? && MapPage(m, root, LARGE_PAGE, LARGE_PAGE, Size2M, false).value.1
    ensures var m' := MapPage(m, root, LARGE_PAGE, LARGE_PAGE, Size2M, false).value.0;
            var pdpt, pd := first + PAGE * u, first + PAGE * (u + 1);
            && HighPool(m', first, u + 2) && |m'.frames| == |m.frames| && LowEmpty(m'.ram)
            && Links(m'.ram, root, 0, pdpt) && Links(m'.ram, pdpt, 0, pd) && Entry(m'.ram, pd, 2) == EMPTY
  {
    hide Entry, SetEntry, NextLevel, HighPool, EmptyTable, LowEmpty, OthersKept, Links, Layout, UsedPrefix;
    HighNumbers(m, first, u);
    assert Index(LARGE_PAGE, 0) == 0 && Index(LARGE_PAGE, 1) == 0 && LeafIndex(LARGE_PAGE, Size2M) == 1;
    EmptyAt(m.ram, root, 0);
    HighLinked(m, first, u, root, 0);
    var (m1, pdpt) := NextLevel(m, root, 0).value;
    EmptyAt(m1.ram, pdpt, 0);
    HighLinked(m1, first, u + 1, pdpt, 0);
    var (m2, pd) := NextLevel(m1, pdpt, 0).value;
    EmptyAt(m2.ram, pd, 2);
    var e := LeafEntry(Entry(m2.ram, pd, 1), LARGE_PAGE, Size2M, false);
    var ram' := SetEntry(m2.ram, pd, 1, e);
    StillLinked(m1.ram, m2.ram, pd, pdpt, 0, root, 0, pdpt);
    LeafKeepsLink(m2.ram, pd, 1, e, root, 0, pdpt);
    LeafKeepsLink(m2.ram, pd, 1, e, pdpt, 0, pd);
    WriteEntry(m2.ram, pd, 1, e, pd, 2);
    LowStaysEmpty(m.ram, m1.ram, pdpt, root, 0);
    LowStaysEmpty(m1.ram, m2.ram, pd, pdpt, 0);
    LowLeaf(m2.ram, pd, 1, e);
    HighPoolRam(m2, ram', first, u + 2);
  }

  lemma EmptyAt(m: Memory, t: nat, j: nat)
    requires EmptyTable(m, t) && j < 512
    ensures Entry(m, t, j) == EMPTY
  {
    hide Entry;
  }

  lemma StillLinked(m: Memory, m': Memory, c: nat, t: nat, i: nat, t': nat, j: nat, target: nat)
    requires OthersKept(m, m', c, t, i) && Links(m, t', j, target)
    requires t' % TABLE == 0 && t' != c && j < 512 && t' != t
    ensures Links(m', t', j, target)
  {
    hide Entry;
  }

  lemma LeafKeepsLink(m: Memory, pd: nat, i: nat, e: Pte, t: nat, j: nat, target: nat)
    requires pd % TABLE == 0 && t % TABLE == 0 && i < 512 && j < 512 && e.Fits() && t != pd && Links(m, t, j, target)
    ensures Links(SetEntry(m, pd, i, e), t, j, target)
  {
    hide Entry, SetEntry;
    WriteEntry(m, pd, i, e, t, j);
  }

  lemma LowStaysEmpty(m: Memory, m': Memory, c: nat, t: nat, i: nat)
    requires LowEmpty(m) && OthersKept(m, m', c, t, i) && c >= TABLE_LIMIT && t >= TABLE_LIMIT
    ensures LowEmpty(m')
  {
    hide Entry;
  }

  lemma LowLeaf(m: Memory, pd: nat, i: nat, e: Pte)
    requires LowEmpty(m) && pd % TABLE == 0 && pd >= TABLE_LIMIT && i < 512 && e.Fits()
    ensures LowEmpty(SetEntry(m, pd, i, e))
  {
    hide Entry, SetEntry;
    forall t: nat, j: nat | t % TABLE == 0 && t < TABLE_LIMIT && j < 512 ensures Entry(SetEntry(m, pd, i, e), t, j) == EMPTY {
      WriteEntry(m, pd, i, e, t, j);
    }
  }

  lemma HighPoolRam(m: Machine, ram: Memory, first: nat, u: nat)
    requires HighPool(m, first, u)
    ensures HighPool(m.(ram := ram), first, u)
  {
  }

  lemma HighLinked(m: Machine, first: nat, u: nat, t: nat, i: nat)
    requires HighPool(m, first, u) && u < |m.frames|
    requires t % TABLE == 0 && 0 < t != first + PAGE * u && i < 512 && Entry(m.ram, t, i) == EMPTY
    ensures NextLevel(m, t, i).Done?
    ensures var (m', c) := NextLevel(m, t, i).value;
            && c == first + PAGE * u && c % TABLE == 0 && c >= TABLE_LIMIT && HighPool(m', first, u + 1) && |m'.frames| == |m.frames|
            && Links(m'.ram, t, i, c)
            && EmptyTable(m'.ram, c)
            && OthersKept(m.ram, m'.ram, c, t, i)
  {
    hide Entry, SetEntry, Claim, Held, Spare, Peek, Layout, UsedPrefix, OthersKept, EmptyTable, HighPool;
    HighNumbers(m, first, u);
    FreshHighLink(m, first, u, t, i);
    ClaimSpec(m, first);
  }

  lemma SecondHighMap(m: Machine, first: nat, u: nat, root: nat, pdpt: nat, pd: nat)
    requires HighPool(m, first, u) && u < |m.frames| && u >= 3 && first > TABLE_LIMIT && LowEmpty(m.ram)
    requires root == first + PAGE * (u - 3) && pdpt == first + PAGE * (u - 2) && pd == first + PAGE * (u - 1)
    requires Links(m.ram, root, 0, pdpt) && Links(m.ram, pdpt, 0, pd) && Entry(m.ram, pd, 2) == EMPTY
    ensures MapPage(m, root, 2 * LARGE_PAGE, LARGE_PAGE, Size2M, false).Done? && MapPage(m, root, 2 * LARGE_PAGE, LARGE_PAGE, Size2M, false).value.1
    ensures Walk(MapPage(m, root, 2 * LARGE_PAGE, LARGE_PAGE, Size2M, false).value.0.ram, root, 2 * LARGE_PAGE) == NotMapped
  {
    hide Entry, SetEntry, HighPool, Layout, UsedPrefix, LowEmpty, OthersKept, EmptyTable;
    HighNumbers(m, first, u);
    assert Index(2 * LARGE_PAGE, 0) == 0 && Index(2 * LARGE_PAGE, 1) == 0 && Index(2 * LARGE_PAGE, 2) == 2 && LeafIndex(2 * LARGE_PAGE, Size2M) == 2;
    var low := pdpt - TABLE_LIMIT;
    HighPointer(m, root, pdpt);
    LowAt(m.ram, low, 0);
    HighLinked(m, first, u, low, 0);
    hide NextLevel;
    var (m1, c) := NextLevel(m, low, 0).value;
    var e := LeafEntry(Entry(m1.ram, c, 2), LARGE_PAGE, Size2M, false);
    var ram' := SetEntry(m1.ram, c, 2, e);
    StillLinked(m.ram, m1.ram, c, low, 0, root, 0, pdpt);
    StillLinked(m.ram, m1.ram, c, low, 0, pdpt, 0, pd);
    StillEmpty(m.ram, m1.ram, c, low, 0, pd, 2);
    LeafKeepsLink(m1.ram, c, 2, e, root, 0, pdpt);
    LeafKeepsLink(m1.ram, c, 2, e, pdpt, 0, pd);
    WriteEntry(m1.ram, c, 2, e, pd, 2);
    assert Hit(ram', root, 2 * LARGE_PAGE, 0) == Hit(ram', pdpt, 2 * LARGE_PAGE, 1);
    assert Hit(ram', pdpt, 2 * LARGE_PAGE, 1) == Hit(ram', pd, 2 * LARGE_PAGE, 2);
  }

  lemma HighPointer(m: Machine, root: nat, pdpt: nat)
    requires Links(m.ram, root, 0, pdpt) && TABLE_LIMIT < pdpt < 2 * TABLE_LIMIT && pdpt % TABLE == 0 && root > 0
    ensures NextLevel(m, root, 0) == Done((m, pdpt - TABLE_LIMIT)) && (pdpt - TABLE_LIMIT) % TABLE == 0
  {
    hide Entry;
    Arith.DivMod(pdpt, TABLE_LIMIT, 1, pdpt - TABLE_LIMIT);
  }

  lemma LowAt(m: Memory, t: nat, j: nat)
    requires LowEmpty(m) && t % TABLE == 0 && t < TABLE_LIMIT && j < 512
    ensures Entry(m, t, j) == EMPTY
  {
    hide Entry;
  }

  lemma StillEmpty(m: Memory, m': Memory, c: nat, t: nat, i: nat, t': nat, j: nat)
    requires OthersKept(m, m', c, t, i) && Entry(m, t', j) == EMPTY && t' % TABLE == 0 && t' != c && j < 512 && t' != t
    ensures Entry(m', t', j) == EMPTY
  {
    hide Entry;
  }
}
