/** The x86_64 page-table entry (src/mm/paging/paging.h) and the processor's walk of the four
    levels, section 4.5 of the Intel SDM, Volume 3A. */
module PageFormat {
  import opened Ram
  import opened Arith

  const FRAME_LIMIT: int := 0x100_0000_0000 // the PhysAddr field has 40 bits
  const PHYS_LIMIT: int := 0x10_0000_0000_0000 // physical addresses have 52
  const TABLE_LIMIT: int := 0x100_0000_0000 // what the code's table pointers can reach
  const TABLE: int := 0x1000
  const LARGE_PAGE: int := 0x20_0000
  const HUGE_PAGE: int := 0x4000_0000
  const VIRT_LIMIT: int := 0x1_0000_0000_0000

  // ---- the bit fields of an entry

  /** `struct PTE`, low bit first. `attributes` holds the four bits between the user bit and the
      page-size bit, `ignored` the four after it. */
  datatype Pte = Pte(present: bool, writable: bool, user: bool, attributes: nat, large: bool, ignored: nat,
                     frame: nat, reserved: nat)
  {
    ghost predicate Fits() {
      attributes < 16 && ignored < 16 && frame < FRAME_LIMIT && reserved < 4096
    }
  }

  const EMPTY: Pte := Pte(false, false, false, 0, false, 0, 0, 0)

  function Bit(b: bool): nat {
    if b then 1 else 0
  }

  /** The 64-bit word that holds an entry. */
  function Pack(e: Pte): nat {
    Bit(e.present) + 2 * (Bit(e.writable) + 2 * (Bit(e.user) + 2 * (e.attributes + 16 * (Bit(e.large) + 2 * (
      e.ignored + 16 * (e.frame + FRAME_LIMIT * e.reserved))))))
  }

  function Unpack(w: nat): (e: Pte)
    ensures e.Fits()
  {
    var w1 := w / 2;
    var w2 := w1 / 2;
    var w3 := w2 / 2;
    var w4 := w3 / 16;
    var w5 := w4 / 2;
    var w6 := w5 / 16;
    var w7 := w6 / FRAME_LIMIT;
    Pte(w % 2 == 1, w1 % 2 == 1, w2 % 2 == 1, w3 % 16, w4 % 2 == 1, w5 % 16, w6 % FRAME_LIMIT, w7 % 4096)
  }

  /** Every entry survives being stored as a word and read back, field by field. */
  lemma UnpackPack(e: Pte)
    requires e.Fits()
    ensures Unpack(Pack(e)) == e
  {
    var w6 := e.frame + FRAME_LIMIT * e.reserved;
    var w5 := e.ignored + 16 * w6;
    var w4 := Bit(e.large) + 2 * w5;
    var w3 := e.attributes + 16 * w4;
    var w2 := Bit(e.user) + 2 * w3;
    var w1 := Bit(e.writable) + 2 * w2;
    DivMod(w6, FRAME_LIMIT, e.reserved, e.frame);
    DivMod(w5, 16, w6, e.ignored);
    DivMod(w4, 2, w5, Bit(e.large));
    DivMod(w3, 16, w4, e.attributes);
    DivMod(w2, 2, w3, Bit(e.user));
    DivMod(w1, 2, w2, Bit(e.writable));
    DivMod(Pack(e), 2, w1, Bit(e.present));
  }

  /** Where the processor finds the fields of an entry, on the raw 64-bit word: bits 0, 1, 2 and 7 are present, writable,
      user and page size, bits 12 to 51 the frame, and the uppermost twelve hold no-execute. */
  lemma PteBits(w: nat)
    ensures var e := Unpack(w);
            && (e.present <==> w % 2 == 1) && (e.writable <==> w / 2 % 2 == 1) && (e.user <==> w / 4 % 2 == 1)
            && e.attributes == w / 8 % 16 && (e.large <==> w / 128 % 2 == 1) && e.ignored == w / 256 % 16
            && e.frame == w / 4096 % 0x100_0000_0000 && e.reserved == w / 0x10_0000_0000_0000 % 4096
  {
    DivDiv(w, 2, 2);
    DivDiv(w, 4, 2);
    DivDiv(w, 8, 16);
    DivDiv(w, 128, 2);
    DivDiv(w, 256, 16);
    DivDiv(w, 4096, 0x100_0000_0000);
  }

  lemma PackFits(e: Pte)
    requires e.Fits()
    ensures Pack(e) < WORD_LIMIT
  {
    assert e.frame + FRAME_LIMIT * e.reserved < FRAME_LIMIT * 4096;
  }

  // ---- address arithmetic

  /** The index a virtual address selects in the table at the given depth (0 is the PML4). */
  function Index(v: nat, d: nat): (i: nat)
    requires d <= 3
    ensures i < 512
  {
    match d
    case 0 => v / 0x80_0000_0000 % 512
    case 1 => v / 0x4000_0000 % 512
    case 2 => v / 0x20_0000 % 512
    case _ => v / 0x1000 % 512
  }

  /** The 48 bits that take part in translation. */
  function Low(v: nat): nat {
    v % VIRT_LIMIT
  }

  /** The number of the region of the 48-bit space that one entry at depth d - 1 spans. */
  function Region(v: nat, d: nat): nat
    requires d <= 4
  {
    match d
    case 0 => 0
    case 1 => Low(v) / 0x80_0000_0000
    case 2 => Low(v) / 0x4000_0000
    case 3 => Low(v) / 0x20_0000
    case _ => Low(v) / 0x1000
  }

  /** One digit in base 512 of the low 48 bits: `c` is how often the span fits into them. */
  lemma SplitIndex(v: nat, h: nat, u: nat, span: nat, c: nat)
    requires v == h * VIRT_LIMIT + u && c * 512 * span == VIRT_LIMIT && span > 0
    ensures u / span == u / (span * 512) * 512 + v / span % 512
  {
    var a := u / span;
    assert v == (h * (c * 512) + a) * span + u % span by {
      assert h * VIRT_LIMIT == h * (c * 512) * span;
      Distribute(h * (c * 512), -a, span);
    }
    DivMod(v, span, h * (c * 512) + a, u % span);
    DivMod(h * (c * 512) + a, 512, h * c + a / 512, a % 512);
    DivDiv(u, span, 512);
  }

  lemma RegionStep(v: nat, d: nat)
    requires d <= 3
    ensures Region(v, d + 1) == Region(v, d) * 512 + Index(v, d)
  {
    var h := v / VIRT_LIMIT;
    match d
    case 0 => SplitIndex(v, h, Low(v), 0x80_0000_0000, 1);
    case 1 => SplitIndex(v, h, Low(v), 0x4000_0000, 0x200);
    case 2 => SplitIndex(v, h, Low(v), 0x20_0000, 0x4_0000);
    case _ => SplitIndex(v, h, Low(v), 0x1000, 0x800_0000);
  }

  /** Addresses in one region share every region above it and the indices that lead there. */
  lemma {:induction false} SameRegionAbove(v: nat, u: nat, d: nat, e: nat)
    requires d <= e <= 4 && Region(v, e) == Region(u, e)
    ensures Region(v, d) == Region(u, d)
    ensures d < e ==> Index(v, d) == Index(u, d)
    decreases e - d
  {
    if d < e {
      SameRegionAbove(v, u, d + 1, e);
      RegionStep(v, d);
      RegionStep(u, d);
    }
  }

  // ---- the walk

  function Entry(m: Memory, table: nat, i: nat): (e: Pte)
    ensures e.Fits()
  {
    Unpack(Word(m, table + 8 * i))
  }

  function SetEntry(m: Memory, table: nat, i: nat, e: Pte): Memory {
    SetWord(m, table + 8 * i, Pack(e))
  }

  /** Where a walk ends: the entry that maps the address and its depth, or nowhere. */
  datatype Leaf = Unmapped | Leaf(depth: nat, entry: Pte)

  function Hit(m: Memory, table: nat, v: nat, d: nat): Leaf
    requires d <= 3
    decreases 3 - d
  {
    var e := Entry(m, table, Index(v, d));
    if !e.present then Unmapped
    else if d == 3 || e.large then Leaf(d, e)
    else Hit(m, e.frame * TABLE, v, d + 1)
  }

  datatype Translation = NotMapped | To(phys: nat)

  /** The physical address behind a leaf. A page-size bit at the top level and address bits
      inside a large page's offset are reserved, so such entries fault. */
  function Translate(leaf: Leaf, v: nat): Translation {
    match leaf
    case Unmapped => NotMapped
    case Leaf(d, e) =>
      if d == 3 then To(e.frame * TABLE + v % TABLE)
      else if d == 2 && e.frame % 512 / 2 == 0 then To(e.frame / 512 * LARGE_PAGE + v % LARGE_PAGE)
      else if d == 1 && e.frame % 0x4_0000 / 2 == 0 then To(e.frame / 0x4_0000 * HUGE_PAGE + v % HUGE_PAGE)
      else NotMapped
  }

  /** The hardware's translation of a virtual address; only its low 48 bits take part. */
  function Walk(m: Memory, root: nat, v: nat): Translation {
    Translate(Hit(m, root, v, 0), v)
  }

  // ---- writing one entry

  lemma TablesApart(t: nat, t': nat)
    requires t % TABLE == 0 && t' % TABLE == 0
    ensures t' == t || t + TABLE <= t' || t' + TABLE <= t
  {
    var k, k' := t / TABLE, t' / TABLE;
    assert t == TABLE * k && t' == TABLE * k';
  }

  /** Writing entry i of a table leaves every other entry of every table alone. */
  lemma WriteEntry(m: Memory, t: nat, i: nat, e: Pte, t': nat, j: nat)
    requires t % TABLE == 0 && t' % TABLE == 0 && i < 512 && j < 512 && e.Fits()
    ensures Entry(SetEntry(m, t, i, e), t', j) == if t' == t && j == i then e else Entry(m, t', j)
  {
    PackFits(e);
    hide SetWord, Word, Pack, Unpack, Peek;
    SetWordReads(m, t + 8 * i, Pack(e));
    if t' == t && j == i {
      UnpackPack(e);
    } else {
      TablesApart(t, t');
      WordSame(m, SetEntry(m, t, i, e), t' + 8 * j);
    }
  }

  lemma WriteEntryBytes(m: Memory, t: nat, i: nat, e: Pte)
    requires i < 512 && e.Fits()
    ensures forall b :: !(t <= b < t + TABLE) ==> Peek(SetEntry(m, t, i, e), b) == Peek(m, b)
  {
    PackFits(e);
    SetWordReads(m, t + 8 * i, Pack(e));
  }

  lemma ZeroEntry(m: Memory, t: nat, i: nat)
    requires AllZero(m, t, t + TABLE) && i < 512
    ensures Entry(m, t, i) == EMPTY
  {
    LoadZero(m, t + 8 * i, t + 8 * i + 8);
  }
}
