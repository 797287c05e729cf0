/** Physical memory as the kernel sees it: bytes, little-endian 64-bit words and `memset`.
    Every subsystem of the memory stack (frame allocator, page tables, heap) reads and writes
    this one memory. */
module Ram {
  type Byte = x: int | 0 <= x < 256

  /** Any contents of the finite address space is such a map; an address that was never
      written reads as 0. */
  type Memory = map<int, Byte>

  const WORD_LIMIT: int := 0x1_0000_0000_0000_0000

  function Peek(m: Memory, a: int): Byte {
    if a in m then m[a] else 0
  }

  /** The two memories hold the same bytes on [lo, hi). */
  ghost predicate Same(m: Memory, m': Memory, lo: int, hi: int) {
    forall a :: lo <= a < hi ==> Peek(m', a) == Peek(m, a)
  }

  ghost predicate AllZero(m: Memory, lo: int, hi: int) {
    forall a :: lo <= a < hi ==> Peek(m, a) == 0
  }

  /** The little-endian number stored on [lo, hi). */
  function Load(m: Memory, lo: int, hi: int): nat
    decreases hi - lo
  {
    if lo >= hi then 0 else Peek(m, lo) + 256 * Load(m, lo + 1, hi)
  }

  /** Writes the low bytes of `v` to [lo, hi), little-endian. */
  function Store(m: Memory, lo: int, hi: int, v: nat): Memory
    decreases hi - lo
  {
    if lo >= hi then m else Store(m[lo := v % 256], lo + 1, hi, v / 256)
  }

  function Word(m: Memory, a: int): nat {
    Load(m, a, a + 8)
  }

  function SetWord(m: Memory, a: int, v: nat): Memory {
    Store(m, a, a + 8, v)
  }

  /** Sets every byte of [lo, hi) to `v`, as a function. */
  function Fill(m: Memory, lo: int, hi: int, v: Byte): Memory
    decreases hi - lo
  {
    if lo >= hi then m else Fill(m[lo := v], lo + 1, hi, v)
  }

  function Pow256(n: nat): nat {
    if n == 0 then 1 else 256 * Pow256(n - 1)
  }

  // ---- reading back what was written

  lemma {:induction false} StoreFrame(m: Memory, lo: int, hi: int, v: nat, a: int)
    requires !(lo <= a < hi)
    ensures Peek(Store(m, lo, hi, v), a) == Peek(m, a)
    decreases hi - lo
  {
    if lo < hi {
      StoreFrame(m[lo := v % 256], lo + 1, hi, v / 256, a);
    }
  }

  lemma {:induction false} LoadSame(m: Memory, m': Memory, lo: int, hi: int)
    requires Same(m, m', lo, hi)
    ensures Load(m', lo, hi) == Load(m, lo, hi)
    decreases hi - lo
  {
    if lo < hi {
      LoadSame(m, m', lo + 1, hi);
    }
  }

  /** A store followed by a load of the same bytes gives the stored number back, cut to the
      width of the field. */
  lemma {:induction false} LoadStore(m: Memory, lo: int, hi: int, v: nat)
    requires lo <= hi
    requires v < Pow256(hi - lo)
    ensures Load(Store(m, lo, hi, v), lo, hi) == v
    decreases hi - lo
  {
    if lo < hi {
      var m1 := m[lo := v % 256];
      LoadStore(m1, lo + 1, hi, v / 256);
      StoreFrame(m1, lo + 1, hi, v / 256, lo);
    }
  }

  lemma {:induction false} LoadBound(m: Memory, lo: int, hi: int)
    requires lo <= hi
    ensures Load(m, lo, hi) < Pow256(hi - lo)
    decreases hi - lo
  {
    if lo < hi {
      LoadBound(m, lo + 1, hi);
    }
  }

  lemma Pow256Of8()
    ensures Pow256(8) == WORD_LIMIT
  {
    assert Pow256(4) == 0x1_0000_0000;
  }

  lemma WordBound(m: Memory, a: int)
    ensures Word(m, a) < WORD_LIMIT
  {
    LoadBound(m, a, a + 8);
    Pow256Of8();
  }

  /** Writing a 64-bit word: it reads back, and no byte outside it changes. */
  lemma SetWordReads(m: Memory, a: int, v: nat)
    requires v < WORD_LIMIT
    ensures Word(SetWord(m, a, v), a) == v
    ensures forall b :: !(a <= b < a + 8) ==> Peek(SetWord(m, a, v), b) == Peek(m, b)
  {
    Pow256Of8();
    LoadStore(m, a, a + 8, v);
    forall b | !(a <= b < a + 8)
      ensures Peek(SetWord(m, a, v), b) == Peek(m, b)
    {
      StoreFrame(m, a, a + 8, v, b);
    }
  }

  /** A word keeps its value when none of its eight bytes changes. */
  lemma WordSame(m: Memory, m': Memory, a: int)
    requires Same(m, m', a, a + 8)
    ensures Word(m', a) == Word(m, a)
  {
    LoadSame(m, m', a, a + 8);
  }

  lemma {:induction false} LoadZero(m: Memory, lo: int, hi: int)
    requires AllZero(m, lo, hi)
    ensures Load(m, lo, hi) == 0
    decreases hi - lo
  {
    if lo < hi {
      LoadZero(m, lo + 1, hi);
    }
  }

  lemma {:induction false} ZeroBytes(m: Memory, lo: int, hi: int, a: int)
    requires Load(m, lo, hi) == 0 && lo <= a < hi
    ensures Peek(m, a) == 0
    decreases hi - lo
  {
    if lo < a {
      ZeroBytes(m, lo + 1, hi, a);
    }
  }

  lemma {:induction false} FillReads(m: Memory, lo: int, hi: int, v: Byte, a: int)
    ensures Peek(Fill(m, lo, hi, v), a) == if lo <= a < hi then v else Peek(m, a)
    decreases hi - lo
  {
    if lo < hi {
      FillReads(m[lo := v], lo + 1, hi, v, a);
    }
  }

  lemma FillAll(m: Memory, lo: int, hi: int, v: Byte)
    ensures forall a :: lo <= a < hi ==> Peek(Fill(m, lo, hi, v), a) == v
    ensures forall a :: !(lo <= a < hi) ==> Peek(Fill(m, lo, hi, v), a) == Peek(m, a)
  {
    forall a ensures Peek(Fill(m, lo, hi, v), a) == if lo <= a < hi then v else Peek(m, a) {
      FillReads(m, lo, hi, v, a);
    }
  }

  /** `memset`: the byte loop of the source. */
  method MemSet(m: Memory, start: int, value: Byte, size: nat) returns (r: Memory)
    ensures r == Fill(m, start, start + size, value)
    ensures forall a :: Peek(r, a) == if start <= a < start + size then value else Peek(m, a)
  {
    r := m;
    var i := 0;
    while i < size
      invariant 0 <= i <= size
      invariant Fill(r, start + i, start + size, value) == Fill(m, start, start + size, value)
    {
      r := r[start + i := value];
      i := i + 1;
    }
    FillAll(m, start, start + size, value);
  }
}
