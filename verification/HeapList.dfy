/** The heap's intrusive free list in memory (src/mm/heapalloc/heap.c): a 16-byte header in front of
    every block, free blocks linked from a static `head`. This module relates the bytes to lists of
    blocks, one elementary write at a time. */
module HeapList {
  import opened Ram
  import opened Lists

  const HEADER: int := 16 // struct HeapNode: size, then next

  datatype Block = Block(addr: nat, size: nat) {
    function End(): nat {
      addr + size
    }
  }

  function SizeAt(m: Memory, node: nat): nat {
    Word(m, node)
  }

  function NextAt(m: Memory, node: nat): nat {
    Word(m, node + 8)
  }

  /** `CreateNode`: the three stores of the source, in order. */
  function PutNode(m: Memory, head: nat, addr: nat, size: nat): Memory {
    var linked := SetWord(m, addr + 8, NextAt(m, head));
    var sized := SetWord(linked, addr, size);
    SetWord(sized, head + 8, addr)
  }

  /** `current->next = current->next->next`. */
  function Unlink(m: Memory, current: nat): Memory {
    SetWord(m, current + 8, NextAt(m, NextAt(m, current)))
  }

  // ---- geometry

  ghost predicate Apart(b: Block, c: Block) {
    b.End() <= c.addr || c.End() <= b.addr
  }

  ghost predicate ApartFrom(b: Block, s: seq<Block>) {
    forall i :: 0 <= i < |s| ==> Apart(b, s[i])
  }

  ghost predicate AllApart(s: seq<Block>) {
    forall i, j :: 0 <= i < j < |s| ==> Apart(s[i], s[j])
  }

  /** Every free and live block is disjoint from every other. */
  ghost predicate Spread(free: seq<Block>, live: seq<Block>) {
    AllApart(free) && AllApart(live) && forall i :: 0 <= i < |free| ==> ApartFrom(free[i], live)
  }

  /** The block lies inside the pool and has room for its own header. */
  ghost predicate Inside(b: Block, lo: nat, hi: nat) {
    lo <= b.addr && b.End() <= hi && HEADER <= b.size
  }

  ghost predicate AllInside(s: seq<Block>, lo: nat, hi: nat) {
    forall i :: 0 <= i < |s| ==> Inside(s[i], lo, hi)
  }

  /** The static `head` lies outside the pool, and the pool is addressable. */
  ghost predicate HeadOk(head: nat, lo: nat, hi: nat) {
    0 < lo <= hi <= WORD_LIMIT && (head + HEADER <= lo || hi <= head)
  }

  // ---- the list in memory

  function AddrAt(free: seq<Block>, i: nat): nat {
    if i < |free| then free[i].addr else 0
  }

  /** The chain of nodes from `head` is exactly the list of free blocks, in order. */
  ghost predicate ListOk(m: Memory, head: nat, free: seq<Block>) {
    && NextAt(m, head) == AddrAt(free, 0)
    && forall i :: 0 <= i < |free| ==>
         SizeAt(m, free[i].addr) == free[i].size && NextAt(m, free[i].addr) == AddrAt(free, i + 1)
  }

  /** The header in front of each live block records its size. */
  ghost predicate LiveOk(m: Memory, live: seq<Block>) {
    forall i :: 0 <= i < |live| ==> SizeAt(m, live[i].addr) == live[i].size
  }

  ghost predicate HeapInv(m: Memory, head: nat, lo: nat, hi: nat, free: seq<Block>, live: seq<Block>) {
    && HeadOk(head, lo, hi) && AllInside(free, lo, hi) && AllInside(live, lo, hi) && Spread(free, live)
    && ListOk(m, head, free) && LiveOk(m, live)
  }

  // ---- bytes

  ghost predicate SameHeader(m: Memory, m': Memory, node: nat) {
    SizeAt(m', node) == SizeAt(m, node) && NextAt(m', node) == NextAt(m, node)
  }

  ghost predicate SameHeaders(m: Memory, m': Memory, s: seq<Block>) {
    forall i :: 0 <= i < |s| ==> SameHeader(m, m', s[i].addr)
  }

  /** A write inside one block's header, and at the head, touches no header of blocks apart from it. */
  lemma HeadersKept(m: Memory, m': Memory, head: nat, lo: nat, hi: nat, b: Block, s: seq<Block>)
    requires HeadOk(head, lo, hi) && AllInside(s, lo, hi) && ApartFrom(b, s) && HEADER <= b.size
    requires forall a :: !(b.addr <= a < b.addr + HEADER) && !(head <= a < head + HEADER) ==> Peek(m', a) == Peek(m, a)
    ensures SameHeaders(m, m', s)
  {
    hide SizeAt, NextAt, Peek;
    forall i | 0 <= i < |s| ensures SameHeader(m, m', s[i].addr) {
      assert Apart(b, s[i]);
      HeaderKept(m, m', s[i].addr);
    }
  }

  lemma HeaderKept(m: Memory, m': Memory, node: nat)
    requires Same(m, m', node, node + HEADER)
    ensures SameHeader(m, m', node)
  {
    WordSame(m, m', node);
    WordSame(m, m', node + 8);
  }

  /** What `CreateNode` writes: the new header, the list head, and nothing else. */
  lemma PutNodeBytes(m: Memory, head: nat, addr: nat, size: nat)
    requires addr < WORD_LIMIT && size < WORD_LIMIT && (head + HEADER <= addr || addr + HEADER <= head)
    ensures var m' := PutNode(m, head, addr, size);
            && SizeAt(m', addr) == size && NextAt(m', addr) == NextAt(m, head) && NextAt(m', head) == addr
            && (forall b :: !(addr <= b < addr + HEADER) && !(head + 8 <= b < head + 16) ==> Peek(m', b) == Peek(m, b))
  {
    WordBound(m, head + 8);
    var linked := SetWord(m, addr + 8, NextAt(m, head));
    SetWordReads(m, addr + 8, NextAt(m, head));
    var sized := SetWord(linked, addr, size);
    SetWordReads(linked, addr, size);
    WordSame(linked, sized, addr + 8);
    var m' := SetWord(sized, head + 8, addr);
    SetWordReads(sized, head + 8, addr);
    WordSame(sized, m', addr);
    WordSame(sized, m', addr + 8);
  }

  lemma UnlinkBytes(m: Memory, current: nat)
    ensures NextAt(Unlink(m, current), current) == NextAt(m, NextAt(m, current))
    ensures forall b :: !(current + 8 <= b < current + 16) ==> Peek(Unlink(m, current), b) == Peek(m, b)
    ensures SizeAt(Unlink(m, current), current) == SizeAt(m, current)
  {
    WordBound(m, NextAt(m, current) + 8);
    SetWordReads(m, current + 8, NextAt(m, NextAt(m, current)));
    WordSame(m, Unlink(m, current), current);
  }

  // ---- the elementary steps keep the invariant

  /** Dropping the last live block from consideration. */
  lemma Forget(m: Memory, head: nat, lo: nat, hi: nat, free: seq<Block>, live: seq<Block>, k: nat)
    requires HeapInv(m, head, lo, hi, free, live) && k < |live|
    ensures HeapInv(m, head, lo, hi, free, Without(live, k))
    ensures ApartFrom(live[k], free) && ApartFrom(live[k], Without(live, k)) && Inside(live[k], lo, hi)
  {
    hide SizeAt, NextAt;
    var rest := Without(live, k);
    forall i | 0 <= i < |free| ensures Apart(live[k], free[i]) {
      assert ApartFrom(free[i], live);
    }
  }

  /** `CreateNode` on memory no block uses puts the block at the front of the list. */
  lemma PutNodeOk(m: Memory, head: nat, lo: nat, hi: nat, free: seq<Block>, live: seq<Block>, b: Block)
    requires HeapInv(m, head, lo, hi, free, live)
    requires Inside(b, lo, hi) && ApartFrom(b, free) && ApartFrom(b, live)
    ensures HeapInv(PutNode(m, head, b.addr, b.size), head, lo, hi, [b] + free, live)
  {
    PutNodeBytes(m, head, b.addr, b.size);
    hide PutNode, SizeAt, NextAt, Peek;
    var m' := PutNode(m, head, b.addr, b.size);
    HeadersKept(m, m', head, lo, hi, b, free);
    HeadersKept(m, m', head, lo, hi, b, live);
    ListWithFront(m, m', head, free, b);
    assert Spread([b] + free, live);
  }

  lemma ListWithFront(m: Memory, m': Memory, head: nat, free: seq<Block>, b: Block)
    requires ListOk(m, head, free) && SameHeaders(m, m', free)
    requires SizeAt(m', b.addr) == b.size && NextAt(m', b.addr) == NextAt(m, head) && NextAt(m', head) == b.addr
    ensures ListOk(m', head, [b] + free)
  {
    hide SizeAt, NextAt;
    var free' := [b] + free;
    forall i | 0 <= i < |free'|
      ensures SizeAt(m', free'[i].addr) == free'[i].size && NextAt(m', free'[i].addr) == AddrAt(free', i + 1)
    {
      if i > 0 {
        assert free'[i] == free[i - 1];
        assert SameHeader(m, m', free[i - 1].addr);
        assert AddrAt(free', i + 1) == AddrAt(free, i);
      }
    }
  }

  /** The node whose `next` field leads to the k-th free block. */
  function Before(head: nat, free: seq<Block>, k: nat): nat
    requires k <= |free|
  {
    if k == 0 then head else free[k - 1].addr
  }

  lemma UnlinkLists(m: Memory, head: nat, lo: nat, hi: nat, free: seq<Block>, live: seq<Block>, k: nat)
    requires HeapInv(m, head, lo, hi, free, live) && k < |free|
    ensures NextAt(m, Before(head, free, k)) == free[k].addr
    ensures ListOk(Unlink(m, Before(head, free, k)), head, Without(free, k))
    ensures LiveOk(Unlink(m, Before(head, free, k)), live + [free[k]])
  {
    var current := Before(head, free, k);
    UnlinkBytes(m, current);
    assert NextAt(m, current) == free[k].addr;
    var m' := Unlink(m, current);
    hide Unlink, SizeAt, NextAt, Peek, Apart;
    UnlinkHeaders(m, m', head, lo, hi, free, live, k);
    assert SameHeader(m, m', free[k].addr);
    ListWithout(m, m', head, free, k);
  }

  /** Unlinking takes exactly the k-th block out of the list, the others keep their order; the
      block's header stays intact, so it can be counted among the live ones. */
  lemma UnlinkOk(m: Memory, head: nat, lo: nat, hi: nat, free: seq<Block>, live: seq<Block>, k: nat)
    requires HeapInv(m, head, lo, hi, free, live) && k < |free|
    ensures NextAt(m, Before(head, free, k)) == free[k].addr
    ensures HeapInv(Unlink(m, Before(head, free, k)), head, lo, hi, Without(free, k), live + [free[k]])
  {
    hide NextAt, ListOk, LiveOk, Unlink, Inside;
    UnlinkLists(m, head, lo, hi, free, live, k);
    UnlinkedSpread(free, live, k);
    hide Spread;
  }

  /** The write to `current->next` changes no other header. */
  lemma UnlinkHeaders(m: Memory, m': Memory, head: nat, lo: nat, hi: nat, free: seq<Block>, live: seq<Block>, k: nat)
    requires HeapInv(m, head, lo, hi, free, live) && k < |free|
    requires var c := Before(head, free, k); forall a :: !(c + 8 <= a < c + 16) ==> Peek(m', a) == Peek(m, a)
    ensures SameHeaders(m, m', live)
    ensures forall i :: 0 <= i < |free| && i != k - 1 ==> SameHeader(m, m', free[i].addr)
    ensures k > 0 ==> NextAt(m', head) == NextAt(m, head)
  {
    if k == 0 {
      assert head + HEADER <= lo || hi <= head;
      forall i | 0 <= i < |free| ensures SameHeader(m, m', free[i].addr) {
        HeaderKept(m, m', free[i].addr);
      }
      forall i | 0 <= i < |live| ensures SameHeader(m, m', live[i].addr) {
        HeaderKept(m, m', live[i].addr);
      }
    } else {
      hide SizeAt, NextAt, Peek;
      var b := free[k - 1];
      assert ApartFrom(b, live);
      HeadersKept(m, m', head, lo, hi, b, live);
      forall i | 0 <= i < |free| && i != k - 1 ensures SameHeader(m, m', free[i].addr) {
        assert if i < k - 1 then Apart(free[i], b) else Apart(b, free[i]);
        HeaderKept(m, m', free[i].addr);
      }
      HeaderKept(m, m', head);
    }
  }

  lemma ListWithout(m: Memory, m': Memory, head: nat, free: seq<Block>, k: nat)
    requires ListOk(m, head, free) && k < |free|
    requires forall i :: 0 <= i < |free| && i != k - 1 ==> SameHeader(m, m', free[i].addr)
    requires k > 0 ==> NextAt(m', head) == NextAt(m, head) && SizeAt(m', free[k - 1].addr) == free[k - 1].size
    requires NextAt(m', Before(head, free, k)) == NextAt(m, free[k].addr)
    ensures ListOk(m', head, Without(free, k))
  {
    hide SizeAt, NextAt;
    var free' := Without(free, k);
    forall i | 0 <= i < |free'|
      ensures SizeAt(m', free'[i].addr) == free'[i].size && NextAt(m', free'[i].addr) == AddrAt(free', i + 1)
    {
      var j := if i < k then i else i + 1;
      assert free'[i] == free[j];
      assert j != k - 1 ==> SameHeader(m, m', free[j].addr) && AddrAt(free', i + 1) == AddrAt(free, j + 1);
    }
  }

  lemma UnlinkedSpread(free: seq<Block>, live: seq<Block>, k: nat)
    requires Spread(free, live) && k < |free|
    ensures Spread(Without(free, k), live + [free[k]])
  {
    var free', live' := Without(free, k), live + [free[k]];
    forall i | 0 <= i < |free'| ensures ApartFrom(free'[i], live') {
      var j := if i < k then i else i + 1;
      assert ApartFrom(free[j], live) && Apart(free[j], free[k]);
    }
    assert ApartFrom(free[k], live);
  }

  /** Writing the size word of a block nothing overlaps makes it live. */
  lemma AdoptOk(m: Memory, head: nat, lo: nat, hi: nat, free: seq<Block>, live: seq<Block>, b: Block)
    requires HeapInv(m, head, lo, hi, free, live)
    requires Inside(b, lo, hi) && ApartFrom(b, free) && ApartFrom(b, live)
    ensures HeapInv(SetWord(m, b.addr, b.size), head, lo, hi, free, live + [b])
  {
    SetWordReads(m, b.addr, b.size);
    var m' := SetWord(m, b.addr, b.size);
    assert SizeAt(m', b.addr) == b.size;
    WordSame(m, m', head + 8);
    assert NextAt(m', head) == NextAt(m, head);
    hide SetWord, SizeAt, NextAt, Peek;
    forall i | 0 <= i < |free| ensures SameHeader(m, m', free[i].addr) {
      HeaderKept(m, m', free[i].addr);
    }
    forall i | 0 <= i < |live| ensures SameHeader(m, m', live[i].addr) {
      HeaderKept(m, m', live[i].addr);
    }
    assert Spread(free, live + [b]);
  }

  /** Bytes outside every header and the head may change freely. */
  lemma OtherWrites(m: Memory, m': Memory, head: nat, lo: nat, hi: nat, free: seq<Block>, live: seq<Block>)
    requires HeapInv(m, head, lo, hi, free, live)
    requires Same(m, m', head, head + HEADER)
    requires forall i :: 0 <= i < |free| ==> Same(m, m', free[i].addr, free[i].addr + HEADER)
    requires forall i :: 0 <= i < |live| ==> Same(m, m', live[i].addr, live[i].addr + HEADER)
    ensures HeapInv(m', head, lo, hi, free, live)
  {
    hide SizeAt, NextAt, Peek;
    HeaderKept(m, m', head);
    forall i | 0 <= i < |free| ensures SameHeader(m, m', free[i].addr) {
      HeaderKept(m, m', free[i].addr);
    }
    forall i | 0 <= i < |live| ensures SameHeader(m, m', live[i].addr) {
      HeaderKept(m, m', live[i].addr);
    }
  }
}
