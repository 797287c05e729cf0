/** The tar ramdisk (src/ramdisk/tar.c). An archive writer in the ustar layout of the pax utility in
    IEEE Std 1003.1 is the specification; the kernel's reader is proved to undo it. */
module Ramdisk {
  import opened Ram
  import opened Outcomes
  import A = Arena
  import HB = HeapBytes
  import H = Heap
  import L = HeapList
  import Q = Requests
  import Arith

  const U32: int := 0x1_0000_0000
  const BLOCK: int := 512
  const PATH: int := 100
  const SIZE_FIELD: int := 124 // path, mode, uid and gid come first
  const ZERO_DIGIT: int := 48

  // ---- numbers in base 8

  /** A byte as a (signed) char. */
  function AsChar(b: Byte): int {
    if b < 128 then b else b - 256
  }

  function Pow8(n: nat): nat {
    if n == 0 then 1 else 8 * Pow8(n - 1)
  }

  /** The value of the digits on [j, hi), the last one having weight 1; `hi` is a parameter so that the
      weight of a digit is its distance from the end. */
  ghost function Octal(m: Memory, j: int, hi: int): int
    decreases hi - j
  {
    if j >= hi then 0 else Octal(m, j + 1, hi) + (AsChar(Peek(m, j)) - ZERO_DIGIT) * Pow8(hi - 1 - j)
  }

  lemma {:induction false} Pow8Small(n: nat)
    requires n <= 10
    ensures Pow8(n) <= 0x4000_0000
  {
    assert Pow8(10) == 0x4000_0000;
    Pow8Grows(n, 10);
  }

  lemma {:induction false} Pow8Grows(n: nat, k: nat)
    requires n <= k
    ensures Pow8(n) <= Pow8(k)
    decreases k
  {
    if n < k {
      Pow8Grows(n, k - 1);
    }
  }

  lemma ModAdd(t: int, z: int)
    ensures (t % U32 + z) % U32 == (t + z) % U32
  {
    var q := (t % U32 + z) / U32;
    Arith.DivMod(t + z, U32, t / U32 + q, (t % U32 + z) % U32);
  }

  lemma OctalStep(m: Memory, value: int, j: int)
    requires 1 <= j <= 11
    ensures Octal(m, value + j - 1, value + 11)
         == Octal(m, value + j, value + 11) + (AsChar(Peek(m, value + j - 1)) - ZERO_DIGIT) * Pow8(11 - j)
  {
    assert value + 11 - 1 - (value + j - 1) == 11 - j;
  }

  lemma WeightStep(j: int)
    requires 1 < j <= 11
    ensures Pow8(11 - j) * 8 % U32 == Pow8(11 - (j - 1))
  {
    Pow8Small(11 - (j - 1));
  }

  /** `DecodeValue`: the loop from the last digit to the first gives the 11-digit octal value modulo
      2^32, for any bytes. */
  method DecodeValue(m: Memory, value: int) returns (ret: nat)
    ensures ret == Octal(m, value, value + 11) % U32
  {
    assert Octal(m, value + 11, value + 11) == 0 && Pow8(0) == 1;
    hide Octal, Pow8, Peek;
    ret := 0;
    var count := 1;
    var j := 11;
    while j > 0
      invariant 0 <= j <= 11
      invariant ret == Octal(m, value + j, value + 11) % U32
      invariant j > 0 ==> count == Pow8(11 - j)
    {
      var term := (AsChar(Peek(m, value + j - 1)) - ZERO_DIGIT) * count;
      OctalStep(m, value, j);
      ModAdd(Octal(m, value + j, value + 11), term);
      ret := (ret + term) % U32;
      if j > 1 {
        WeightStep(j);
      }
      count := count * 8 % U32;
      j := j - 1;
    }
  }

  // ---- the archive

  /** A member of the archive. `owner` stands for the mode, uid and gid fields, `rest` for everything
      after the size field; the reader looks at neither. `stop` ends the size field. */
  datatype File = File(path: seq<Byte>, owner: seq<Byte>, stop: Byte, rest: seq<Byte>, data: seq<Byte>)

  ghost predicate WellFormed(f: File) {
    && 0 < |f.path| < PATH && 0 !in f.path
    && |f.owner| == 24 && |f.rest| == 376 && |f.data| <= U32 - 1024
  }

  function Zeros(n: nat): (r: seq<Byte>)
    ensures |r| == n && forall i :: 0 <= i < n ==> r[i] == 0
  {
    seq(n, i => 0)
  }

  /** n in k octal digits, most significant first. */
  function Digits(n: nat, k: nat): (r: seq<Byte>)
    ensures |r| == k
  {
    if k == 0 then [] else Digits(n / 8, k - 1) + [ZERO_DIGIT + n % 8]
  }

  function Header(f: File): seq<Byte>
    requires |f.path| <= PATH
  {
    f.path + Zeros(PATH - |f.path|) + f.owner + Digits(|f.data|, 11) + [f.stop] + f.rest
  }

  /** Bytes a member takes up: its header and its data, rounded up to whole blocks. */
  function Extent(size: nat): nat {
    BLOCK + (size + BLOCK - 1) / BLOCK * BLOCK
  }

  function Member(f: File): seq<Byte>
    requires WellFormed(f)
  {
    Header(f) + f.data + Zeros(Extent(|f.data|) - BLOCK - |f.data|)
  }

  ghost predicate AllWellFormed(files: seq<File>) {
    forall i :: 0 <= i < |files| ==> WellFormed(files[i])
  }

  /** Where the k-th member starts. */
  ghost function Offset(files: seq<File>, k: nat): nat
    requires k <= |files|
  {
    if k == 0 then 0 else Offset(files, k - 1) + Extent(|files[k - 1].data|)
  }

  /** The bytes are in memory at the address. */
  ghost predicate Holds(m: Memory, a: int, bytes: seq<Byte>) {
    forall i :: 0 <= i < |bytes| ==> Peek(m, a + i) == bytes[i]
  }

  ghost predicate MemberAt(m: Memory, a: int, files: seq<File>, k: nat)
    requires k < |files|
  {
    WellFormed(files[k]) && Holds(m, a + Offset(files, k), Member(files[k]))
  }

  /** The archive is in memory: the members one after the other, then a zero byte. */
  ghost predicate ArchiveAt(m: Memory, a: int, files: seq<File>) {
    && AllWellFormed(files)
    && (forall k :: 0 <= k < |files| ==> MemberAt(m, a, files, k))
    && Peek(m, a + Offset(files, |files|)) == 0
  }

  // ---- reading one header

  lemma {:induction false} OctalOfDigits(m: Memory, a: int, n: nat, k: nat)
    requires Holds(m, a, Digits(n, k)) && n < Pow8(k)
    ensures Octal(m, a, a + k) == n
    decreases k
  {
    if k > 0 {
      var front := Digits(n / 8, k - 1);
      assert forall i :: 0 <= i < k - 1 ==> Digits(n, k)[i] == front[i];
      OctalOfDigits(m, a, n / 8, k - 1);
      OctalSnoc(m, a, a + k);
      assert Peek(m, a + (k - 1)) == Digits(n, k)[k - 1];
    }
  }

  /** One more digit at the end multiplies the value by eight. */
  lemma {:induction false} OctalSnoc(m: Memory, j: int, hi: int)
    requires j < hi
    ensures Octal(m, j, hi) == 8 * Octal(m, j, hi - 1) + AsChar(Peek(m, hi - 1)) - ZERO_DIGIT
    decreases hi - j
  {
    if j == hi - 1 {
      assert Octal(m, hi, hi) == 0;
      assert Pow8(0) == 1;
    } else {
      var d, w := AsChar(Peek(m, j)) - ZERO_DIGIT, Pow8(hi - 2 - j);
      OctalHead(m, j, hi);
      OctalHead(m, j, hi - 1);
      assert Pow8(hi - 1 - j) == 8 * w;
      hide *;
      OctalSnoc(m, j + 1, hi);
      Scale(d, w);
    }
  }

  lemma OctalHead(m: Memory, j: int, hi: int)
    requires j < hi
    ensures Octal(m, j, hi) == Octal(m, j + 1, hi) + (AsChar(Peek(m, j)) - ZERO_DIGIT) * Pow8(hi - 1 - j)
  {
  }

  lemma Scale(d: int, w: int)
    ensures d * (8 * w) == 8 * (d * w)
  {
  }

  /** The advance of the reader, in 32-bit arithmetic. */
  function Advance(size: nat): nat {
    (BLOCK + size + (BLOCK - 1)) % U32 / BLOCK * BLOCK
  }

  /** For every size that eleven octal digits can hold, the reader, which knows it modulo 2^32, reaches the next member
      exactly when the size is at most 2^32 - 1024. */
  lemma AdvanceExactIff(size: nat)
    requires size < Pow8(11)
    ensures Advance(size % U32) == Extent(size) <==> size <= U32 - 1024
  {
    hide Pow8;
    if size < U32 {
      Arith.DivMod(size, U32, 0, size);
      AdvanceWithin(size);
    } else {
      AdvanceBound(size % U32);
      ExtentBound(size);
    }
  }

  lemma AdvanceBound(size: nat)
    ensures Advance(size) < U32
  {
    var x := (BLOCK + size + (BLOCK - 1)) % U32;
    assert x == x / BLOCK * BLOCK + x % BLOCK;
  }

  lemma ExtentBound(size: nat)
    ensures BLOCK + size <= Extent(size)
  {
    assert size + BLOCK - 1 == (size + BLOCK - 1) / BLOCK * BLOCK + (size + BLOCK - 1) % BLOCK;
  }

  lemma AdvanceWithin(size: nat)
    requires size < U32
    ensures Advance(size) == Extent(size) <==> size <= U32 - 1024
  {
    var x := size + (BLOCK - 1);
    assert (BLOCK + x) / BLOCK == 1 + x / BLOCK by {
      Arith.DivMod(BLOCK + x, BLOCK, 1 + x / BLOCK, x % BLOCK);
    }
    if size <= U32 - 1024 {
      Arith.DivMod(BLOCK + x, U32, 0, BLOCK + x);
    } else {
      Arith.DivMod(BLOCK + x, U32, 1, BLOCK + x - U32);
    }
  }

  /** One byte more and the reader does not move at all: the loop would never end. */
  lemma AdvanceCanStall()
    ensures Advance(U32 - 1023) == 0
  {
  }

  lemma HoldsSlice(m: Memory, a: int, bytes: seq<Byte>, lo: nat, hi: nat)
    requires Holds(m, a, bytes) && lo <= hi <= |bytes|
    ensures Holds(m, a + lo, bytes[lo..hi])
  {
    forall i | 0 <= i < hi - lo ensures Peek(m, a + lo + i) == bytes[lo..hi][i] {
      assert Peek(m, a + (lo + i)) == bytes[lo + i];
    }
  }

  /** The fields of a member and where the reader looks for them. */
  lemma MemberFields(f: File)
    requires WellFormed(f)
    ensures |Member(f)| == Extent(|f.data|) && |Header(f)| == BLOCK
    ensures Member(f)[..|f.path|] == f.path && Member(f)[|f.path|] == 0
    ensures Member(f)[SIZE_FIELD..SIZE_FIELD + 11] == Digits(|f.data|, 11)
    ensures Member(f)[BLOCK..BLOCK + |f.data|] == f.data
  {
    var n := |f.data|;
    assert Extent(n) - BLOCK - n >= 0 by {
      assert n + BLOCK - 1 == (n + BLOCK - 1) / BLOCK * BLOCK + (n + BLOCK - 1) % BLOCK;
    }
    var h, x := Header(f), Member(f);
    assert |h| == BLOCK;
    assert forall i :: 0 <= i < |h| ==> x[i] == h[i];
    hide Digits, Extent;
    assert h[..|f.path|] == f.path;
    assert h[SIZE_FIELD..SIZE_FIELD + 11] == Digits(n, 11);
    assert x[SIZE_FIELD..SIZE_FIELD + 11] == h[SIZE_FIELD..SIZE_FIELD + 11];
    assert x[..|f.path|] == h[..|f.path|];
  }

  lemma MemberLength(f: File)
    requires WellFormed(f)
    ensures BLOCK + |f.data| <= |Member(f)|
  {
    MemberFields(f);
    ExtentBound(|f.data|);
  }

  lemma SizeInMemory(m: Memory, a: int, n: nat)
    requires Holds(m, a, Digits(n, 11)) && n < U32
    ensures Octal(m, a, a + 11) % U32 == n
  {
    assert Pow8(11) == 0x2_0000_0000;
    hide Digits, Octal, Pow8, Peek;
    OctalOfDigits(m, a, n, 11);
  }

  lemma PathInMemory(m: Memory, a: int, f: File)
    requires WellFormed(f) && Holds(m, a, Member(f))
    ensures Holds(m, a, f.path) && Peek(m, a + |f.path|) == 0 && Peek(m, a) != 0
  {
    MemberFields(f);
    hide Member, Digits, Peek, Extent;
    assert Peek(m, a + |f.path|) == 0;
    HoldsSlice(m, a, Member(f), 0, |f.path|);
    assert Member(f)[0..|f.path|] == f.path;
    assert f.path[0] in f.path && Peek(m, a + 0) == f.path[0];
  }

  /** What the reader finds at the start of a member. */
  lemma MemberInMemory(m: Memory, a: int, f: File)
    requires WellFormed(f) && Holds(m, a, Member(f))
    ensures Holds(m, a, f.path) && Peek(m, a + |f.path|) == 0 && Peek(m, a) != 0
    ensures Octal(m, a + SIZE_FIELD, a + SIZE_FIELD + 11) % U32 == |f.data|
    ensures Holds(m, a + BLOCK, f.data)
  {
    hide Member, Digits, Octal, Peek, Extent, Holds;
    PathInMemory(m, a, f);
    MemberFields(f);
    MemberLength(f);
    HoldsSlice(m, a, Member(f), SIZE_FIELD, SIZE_FIELD + 11);
    HoldsSlice(m, a, Member(f), BLOCK, BLOCK + |f.data|);
    SizeInMemory(m, a + SIZE_FIELD, |f.data|);
  }

  // ---- writing a whole archive

  /** The writer: the members one after the other. */
  ghost function Write(files: seq<File>): seq<Byte>
    requires AllWellFormed(files)
  {
    if files == [] then [] else Write(files[..|files| - 1]) + Member(files[|files| - 1])
  }

  lemma {:induction false} OffsetPrefix(files: seq<File>, n: nat, k: nat)
    requires k <= n <= |files|
    ensures Offset(files[..n], k) == Offset(files, k)
    decreases k
  {
    hide Extent;
    if k > 0 {
      OffsetPrefix(files, n, k - 1);
    }
  }

  lemma HoldsConcat(m: Memory, a: int, s: seq<Byte>, t: seq<Byte>)
    requires Holds(m, a, s + t)
    ensures Holds(m, a, s) && Holds(m, a + |s|, t)
  {
    HoldsSlice(m, a, s + t, 0, |s|);
    HoldsSlice(m, a, s + t, |s|, |s + t|);
    assert (s + t)[0..|s|] == s && (s + t)[|s|..|s + t|] == t;
  }

  lemma {:induction false} WriteLength(files: seq<File>)
    requires AllWellFormed(files)
    ensures |Write(files)| == Offset(files, |files|)
    decreases |files|
  {
    if files != [] {
      var n := |files| - 1;
      MemberFields(files[n]);
      hide Member, Extent;
      WriteLength(files[..n]);
      OffsetPrefix(files, n, n);
    }
  }

  /** What the writer produces, followed by a zero byte, is an archive in memory. */
  lemma {:induction false} WrittenMembers(m: Memory, a: int, files: seq<File>, k: nat)
    requires AllWellFormed(files) && Holds(m, a, Write(files)) && k < |files|
    ensures MemberAt(m, a, files, k)
    decreases |files|
  {
    hide Member, Holds, Extent, WellFormed;
    var n := |files| - 1;
    var init, last := files[..n], files[n];
    HoldsConcat(m, a, Write(init), Member(last));
    WriteLength(init);
    OffsetPrefix(files, n, if k < n then k else n);
    if k < n {
      WrittenMembers(m, a, init, k);
      assert init[k] == files[k];
    }
  }

  lemma WriterMakesArchive(m: Memory, a: int, files: seq<File>)
    requires AllWellFormed(files) && Holds(m, a, Write(files)) && Peek(m, a + |Write(files)|) == 0
    ensures ArchiveAt(m, a, files)
  {
    hide Write, Holds, Peek, MemberAt;
    WriteLength(files);
    forall k | 0 <= k < |files| ensures MemberAt(m, a, files, k) {
      WrittenMembers(m, a, files, k);
    }
  }

  // ---- an archive that the heap leaves alone

  lemma {:induction false} OffsetGrows(files: seq<File>, k: nat, n: nat)
    requires k <= n <= |files|
    ensures Offset(files, k) <= Offset(files, n)
    decreases n
  {
    hide Extent;
    if k < n {
      OffsetGrows(files, k, n - 1);
    }
  }

  lemma HoldsKept(m: Memory, m': Memory, a: int, bytes: seq<Byte>)
    requires Holds(m, a, bytes) && Same(m, m', a, a + |bytes|)
    ensures Holds(m', a, bytes)
  {
    hide Peek;
  }

  lemma ArchiveKept(m: Memory, m': Memory, a: int, files: seq<File>)
    requires ArchiveAt(m, a, files) && Same(m, m', a, a + Offset(files, |files|) + 1)
    ensures ArchiveAt(m', a, files)
  {
    hide Peek, Offset, MemberAt;
    OffsetGrows(files, 0, |files|);
    assert Same(m, m', a + Offset(files, |files|), a + Offset(files, |files|) + 1);
    forall k | 0 <= k < |files| ensures MemberAt(m', a, files, k) {
      assert MemberAt(m, a, files, k);
      MemberKept(m, m', a, files, k);
    }
  }

  lemma MemberKept(m: Memory, m': Memory, a: int, files: seq<File>, k: nat)
    requires k < |files| && MemberAt(m, a, files, k) && Same(m, m', a, a + Offset(files, |files|) + 1)
    ensures MemberAt(m', a, files, k)
  {
    hide Peek, Member, Extent, Holds, Offset, WellFormed;
    MemberSpan(files, k);
    HoldsKept(m, m', a + Offset(files, k), Member(files[k]));
  }

  /** A member lies before the end of the archive. */
  lemma MemberSpan(files: seq<File>, k: nat)
    requires k < |files| && WellFormed(files[k])
    ensures Offset(files, k) + |Member(files[k])| <= Offset(files, |files|)
  {
    hide Member, Extent;
    MemberFields(files[k]);
    OffsetGrows(files, k + 1, |files|);
  }

  /** The byte lies outside the frames and the list head. */
  ghost predicate Foreign(head: nat, pool: A.Pool, a: int) {
    !(head <= a < head + L.HEADER) && !(pool.first <= a < pool.Frame(pool.count))
  }

  ghost predicate Clear(head: nat, pool: A.Pool, lo: int, hi: int) {
    forall a :: lo <= a < hi ==> Foreign(head, pool, a)
  }

  /** The heap changed nothing outside the frames and its list head. */
  ghost predicate LeavesAlone(m: Memory, m': Memory, head: nat, pool: A.Pool) {
    forall a :: Foreign(head, pool, a) ==> Peek(m', a) == Peek(m, a)
  }

  lemma UntouchedLeavesAlone(m: Memory, m': Memory, head: nat, pool: A.Pool, h: A.Arena)
    requires HB.Untouched(m, m', head, pool, h) && h.used <= pool.count && forall q :: q in h.pages ==> q < h.used
    ensures LeavesAlone(m, m', head, pool)
  {
    hide Peek;
    forall a | Foreign(head, pool, a) ensures Peek(m', a) == Peek(m, a) {
      assert !A.InPages(pool, h.pages, a);
    }
  }

  lemma ClearSame(m: Memory, m': Memory, head: nat, pool: A.Pool, lo: int, hi: int)
    requires LeavesAlone(m, m', head, pool) && Clear(head, pool, lo, hi)
    ensures Same(m, m', lo, hi)
  {
    hide Peek;
  }

  lemma LeavesAloneCompose(m: Memory, m1: Memory, m2: Memory, head: nat, pool: A.Pool)
    requires LeavesAlone(m, m1, head, pool) && LeavesAlone(m1, m2, head, pool)
    ensures LeavesAlone(m, m2, head, pool)
  {
    hide Peek;
  }

  // ---- the file list

  datatype FileEntry = FileEntry(path: seq<Byte>, size: nat, begin: int)

  ghost function NodeOf(files: seq<File>, a: int, k: nat): FileEntry
    requires k < |files|
  {
    FileEntry(files[k].path, |files[k].data|, a + Offset(files, k) + BLOCK)
  }

  /** The nodes for the first k members, newest first. */
  ghost function Nodes(files: seq<File>, a: int, k: nat): seq<FileEntry>
    requires k <= |files|
  {
    if k == 0 then [] else [NodeOf(files, a, k - 1)] + Nodes(files, a, k - 1)
  }

  /** The reader stands at a member exactly while some are left. */
  lemma AtMember(m: Memory, a: int, files: seq<File>, k: nat)
    requires ArchiveAt(m, a, files) && k <= |files|
    ensures k < |files| <==> Peek(m, a + Offset(files, k)) != 0
    ensures k < |files| ==> MemberAt(m, a, files, k)
    ensures k < |files| ==> Offset(files, k + 1) == Offset(files, k) + Extent(|files[k].data|)
  {
    hide Member, Octal, Peek, Extent, Holds;
    if k < |files| {
      assert MemberAt(m, a, files, k);
      MemberInMemory(m, a + Offset(files, k), files[k]);
    }
  }

  /** The first k members are registered in front of the older nodes. */
  ghost predicate Registered(now: seq<FileEntry>, older: seq<FileEntry>, files: seq<File>, a: int, k: nat) {
    k <= |files| && now == Nodes(files, a, k) + older
  }

  lemma NothingRegistered(older: seq<FileEntry>, files: seq<File>, a: int)
    ensures Offset(files, 0) == 0 && Registered(older, older, files, a, 0)
  {
  }

  lemma Unregister(now: seq<FileEntry>, older: seq<FileEntry>, files: seq<File>, a: int, k: nat)
    requires Registered(now, older, files, a, k)
    ensures k <= |files| && now == Nodes(files, a, k) + older
  {
  }

  lemma RegisterOne(now: seq<FileEntry>, older: seq<FileEntry>, files: seq<File>, a: int, k: nat)
    requires Registered(now, older, files, a, k) && k < |files|
    ensures Registered([NodeOf(files, a, k)] + now, older, files, a, k + 1)
  {
    hide NodeOf;
    var x, s := NodeOf(files, a, k), Nodes(files, a, k);
    assert Nodes(files, a, k + 1) == [x] + s;
    assert [x] + (s + older) == ([x] + s) + older;
  }

  datatype Option<+T> = None | Some(value: T)

  /** The first n characters of a C string. */
  function Cut(s: seq<Byte>, n: nat): seq<Byte> {
    if |s| <= n then s else s[..n]
  }

  /** The first node whose path agrees with the query in the first 100 characters. */
  function Lookup(nodes: seq<FileEntry>, path: seq<Byte>): Option<FileEntry> {
    if nodes == [] then None
    else if Cut(path, PATH) == Cut(nodes[0].path, PATH) then Some(nodes[0])
    else Lookup(nodes[1..], path)
  }

  /** The index of the last member with the path, or -1. */
  ghost function LastIndex(files: seq<File>, path: seq<Byte>, k: nat): (r: int)
    requires k <= |files|
    ensures -1 <= r < k
    ensures r >= 0 ==> files[r].path == path
    ensures forall i :: r < i < k ==> files[i].path != path
  {
    if k == 0 then -1 else if files[k - 1].path == path then k - 1 else LastIndex(files, path, k - 1)
  }

  /** Looking a path up in the list that the reader built finds the last member with that path. */
  lemma {:induction false} LookupFindsLast(files: seq<File>, a: int, path: seq<Byte>, k: nat)
    requires AllWellFormed(files) && k <= |files|
    ensures Lookup(Nodes(files, a, k), path) ==
              var i := LastIndex(files, path, k);
              if i < 0 then None else Some(NodeOf(files, a, i))
    decreases k
  {
    assert Lookup([], path) == None;
    hide Offset, Cut, Lookup, WellFormed;
    if k > 0 {
      LookupFindsLast(files, a, path, k - 1);
      CutDecides(path, files[k - 1]);
      LookupCons(NodeOf(files, a, k - 1), Nodes(files, a, k - 1), path);
    }
  }

  lemma LookupCons(x: FileEntry, rest: seq<FileEntry>, path: seq<Byte>)
    ensures Lookup([x] + rest, path) ==
              if Cut(path, PATH) == Cut(x.path, PATH) then Some(x) else Lookup(rest, path)
  {
    hide Cut;
    assert ([x] + rest)[1..] == rest;
  }

  /** No path in the archive is long enough for the cut to matter. */
  lemma CutDecides(path: seq<Byte>, f: File)
    requires WellFormed(f)
    ensures Cut(path, PATH) == Cut(f.path, PATH) <==> path == f.path
  {
  }

  // ---- string functions

  function CharAt(s: seq<Byte>, i: nat): Byte {
    if i < |s| then s[i] else 0
  }

  /** `strncmp` on NUL-terminated strings: zero exactly when the first n characters agree. */
  method StrNCmp(s: seq<Byte>, t: seq<Byte>, n: nat) returns (r: int)
    requires 0 !in s && 0 !in t
    ensures r == 0 <==> Cut(s, n) == Cut(t, n)
  {
    var i := 0;
    while i != n && CharAt(s, i) != 0 && CharAt(s, i) == CharAt(t, i)
      invariant 0 <= i <= n && i <= |s| && i <= |t|
      invariant forall j :: 0 <= j < i ==> s[j] == t[j]
      decreases |s| - i
    {
      i := i + 1;
    }
    assert forall j :: 0 <= j < |s| ==> s[j] in s;
    assert forall j :: 0 <= j < |t| ==> t[j] in t;
    if i == n {
      assert Cut(s, n) == Cut(t, n);
      return 0;
    }
    r := AsChar(CharAt(s, i)) - AsChar(CharAt(t, i));
    assert CharAt(Cut(s, n), i) == CharAt(s, i) && CharAt(Cut(t, n), i) == CharAt(t, i);
    if r == 0 {
      assert s == t;
    }
  }

  /** The string in a buffer: the bytes before the first NUL. */
  function Text(b: seq<Byte>): (t: seq<Byte>)
    ensures 0 !in t
  {
    if b == [] || b[0] == 0 then [] else [b[0]] + Text(b[1..])
  }

  lemma {:induction false} TextIs(b: seq<Byte>, text: seq<Byte>)
    requires |text| < |b| && b[..|text|] == text && b[|text|] == 0 && 0 !in text
    ensures Text(b) == text
    decreases |b|
  {
    if text != [] {
      assert b[0] == b[..|text|][0] == text[0];
      assert b[1..][..|text| - 1] == b[..|text|][1..];
      TextIs(b[1..], text[1..]);
    }
  }

  /** `strcpy` from memory: the characters up to the terminator, and the terminator; the rest of the buffer stays. */
  method StrCpy(m: Memory, dest: array<Byte>, src: int, ghost text: seq<Byte>)
    requires Holds(m, src, text) && 0 !in text && Peek(m, src + |text|) == 0 && |text| < dest.Length
    modifies dest
    ensures dest[..|text|] == text && dest[|text|] == 0
    ensures dest[|text| + 1..] == old(dest[|text| + 1..])
  {
    assert forall j :: 0 <= j < |text| ==> text[j] in text;
    var i := 0;
    while Peek(m, src + i) != 0
      invariant 0 <= i <= |text| && Peek(m, src + i) == CharAt(text, i)
      invariant forall j :: 0 <= j < i ==> dest[j] == text[j]
      invariant forall j :: |text| < j < dest.Length ==> dest[j] == old(dest[j])
      decreases |text| - i
    {
      dest[i] := Peek(m, src + i);
      i := i + 1;
    }
    dest[i] := 0;
  }

  /** `struct FileNode`. */
  class FileNode {
    const filePath: array<Byte>
    var fileSize: nat
    var fileBegin: int
    var next: FileNode?

    /** A node from the heap. */
    constructor ()
      ensures fresh(filePath) && filePath.Length == PATH
    {
      filePath := new Byte[PATH];
      fileSize, fileBegin, next := 0, 0, null;
    }

    ghost function Value(): FileEntry
      reads this`fileSize, this`fileBegin, filePath
    {
      FileEntry(Text(filePath[..]), fileSize, fileBegin)
    }
  }

  class Ramdisk {
    var ramdiskInitialized: bool
    const filehead: FileNode // the sentinel
    const heap: H.Heap

    ghost var list: seq<FileNode> // the nodes behind it, newest first
    ghost var files: seq<FileEntry> // what they hold

    constructor (heap: H.Heap)
      ensures Valid() && !ramdiskInitialized && files == [] && list == [] && this.heap == heap
      ensures fresh(filehead)
    {
      ramdiskInitialized := false;
      this.heap := heap;
      var sentinel := new FileNode();
      sentinel.next := null;
      filehead := sentinel;
      list, files := [], [];
    }

    ghost function NodeAt(i: nat): FileNode?
      reads this`list
    {
      if i < |list| then list[i] else null
    }

    ghost predicate Distinct()
      reads this`list
    {
      filehead !in list && forall i, j :: 0 <= i < j < |list| ==> list[i] != list[j]
    }

    /** The chain from the sentinel is the list: it visits each node once and ends in null. */
    ghost predicate Links()
      reads this`list, filehead`next, list`next
    {
      && filehead.next == NodeAt(0)
      && (forall i {:trigger list[i].next} :: 0 <= i < |list| ==> list[i].next == NodeAt(i + 1))
    }

    ghost predicate Contents()
      reads this`list, this`files, list`fileSize, list`fileBegin, set n | n in list :: n.filePath
    {
      && |files| == |list|
      && (forall i {:trigger list[i].Value()} {:trigger files[i]} :: 0 <= i < |list| ==> list[i].Value() == files[i])
    }

    ghost predicate Valid()
      reads this, filehead, list, set n | n in list :: n.filePath
    {
      Distinct() && Links() && Contents()
    }

    /** `InsertEntry`: a new node in front of the list, with its own copy of the path, unless `malloc` ends otherwise. */
    method InsertEntry(filePath: int, fileSize: nat, fileBegin: int, ghost text: seq<Byte>) returns (o: Outcome<()>)
      requires Valid() && heap.Valid() && A.CleanSplit(heap.pool, heap.arena, Q.FILE_NODE)
      requires Holds(heap.alloc.ram, filePath, text) && 0 !in text && Peek(heap.alloc.ram, filePath + |text|) == 0 && |text| < PATH
      requires Clear(heap.head, heap.pool, filePath, filePath + |text| + 1)
      modifies this`list, this`files, filehead`next, heap`arena, heap.alloc`ram, heap.alloc.frameList
      ensures match A.Allot(heap.pool, old(heap.arena), Q.FILE_NODE)
              case Panic => o == Panic
              case Fault => o == Fault
              case Done((h, _)) =>
                && o == Done(()) && Valid() && heap.Valid() && heap.arena == h
                && LeavesAlone(old(heap.alloc.ram), heap.alloc.ram, heap.head, heap.pool)
                && files == [FileEntry(text, fileSize, fileBegin)] + old(files)
                && |list| > 0 && fresh(list[0]) && fresh(list[0].filePath) && list[1..] == old(list)
    {
      hide Text, Peek, A.Allot, HB.HeapState, A.CleanSplit, LeavesAlone, Clear;
      var got := NewNode(filePath, fileSize, fileBegin, text);
      if got.IsFailure() {
        return got.PropagateFailure();
      }
      Register(got.value, text);
      return Done(());
    }

    /** Links a filled node. */
    method Register(node: FileNode, ghost text: seq<Byte>)
      requires Valid() && node != filehead && node !in list
      modifies this`list, this`files, filehead`next, node`next
      ensures Valid() && files == [node.Value()] + old(files) && list == [node] + old(list)
    {
      hide Text;
      Link(node);
      files := [node.Value()] + files;
      forall i | 0 < i < |list| ensures list[i] == old(list)[i - 1] && list[i].Value() == files[i] {
        assert list[i].Value() == old(list[i - 1].Value());
      }
    }

    /** The filled node, on a block from `malloc`. */
    method NewNode(filePath: int, fileSize: nat, fileBegin: int, ghost text: seq<Byte>) returns (o: Outcome<FileNode>)
      requires heap.Valid() && A.CleanSplit(heap.pool, heap.arena, Q.FILE_NODE)
      requires Holds(heap.alloc.ram, filePath, text) && 0 !in text && Peek(heap.alloc.ram, filePath + |text|) == 0 && |text| < PATH
      requires Clear(heap.head, heap.pool, filePath, filePath + |text| + 1)
      modifies heap`arena, heap.alloc`ram, heap.alloc.frameList
      ensures match A.Allot(heap.pool, old(heap.arena), Q.FILE_NODE)
              case Panic => o == Panic
              case Fault => o == Fault
              case Done((h, _)) =>
                && o.Done? && heap.Valid() && heap.arena == h
                && LeavesAlone(old(heap.alloc.ram), heap.alloc.ram, heap.head, heap.pool)
                && fresh(o.value) && fresh(o.value.filePath) && o.value.Value() == FileEntry(text, fileSize, fileBegin)
    {
      hide Text, Peek, Holds, A.Allot, HB.HeapState, A.CleanSplit, LeavesAlone, Clear, HB.Untouched, HB.MallocBytes,
        HB.KeepsPayloads, HB.Pristine;
      ghost var m0, h0 := heap.alloc.State(), heap.arena;
      HB.StateNumbers(m0, heap.head, heap.pool, h0);
      HB.MallocBytesOk(m0, heap.head, heap.pool, h0, Q.FILE_NODE);
      var got := heap.Malloc(Q.FILE_NODE);
      if got.IsFailure() {
        return got.PropagateFailure();
      }
      UntouchedLeavesAlone(m0.ram, heap.alloc.ram, heap.head, heap.pool, h0);
      ClearSame(m0.ram, heap.alloc.ram, heap.head, heap.pool, filePath, filePath + |text| + 1);
      HoldsKept(m0.ram, heap.alloc.ram, filePath, text);
      var node := Fill(heap.alloc.ram, filePath, fileSize, fileBegin, text);
      return Done(node);
    }

    method Fill(m: Memory, filePath: int, fileSize: nat, fileBegin: int, ghost text: seq<Byte>) returns (node: FileNode)
      requires Holds(m, filePath, text) && 0 !in text && Peek(m, filePath + |text|) == 0 && |text| < PATH
      ensures fresh(node) && fresh(node.filePath) && node.Value() == FileEntry(text, fileSize, fileBegin)
    {
      hide Text, Peek, Holds;
      node := new FileNode();
      StrCpy(m, node.filePath, filePath, text);
      node.fileSize := fileSize;
      node.fileBegin := fileBegin;
      assert node.filePath[..][..|text|] == node.filePath[..|text|];
      TextIs(node.filePath[..], text);
    }

    /** The new node becomes the first of the list. */
    method Link(node: FileNode)
      requires Distinct() && Links() && node != filehead && node !in list
      modifies this`list, filehead`next, node`next
      ensures Distinct() && Links() && list == [node] + old(list)
    {
      ghost var before := list;
      node.next := filehead.next;
      filehead.next := node;
      list := [node] + before;
      forall i | 0 < i < |list| ensures list[i].next == NodeAt(i + 1) {
        assert list[i] == before[i - 1] && old(before[i - 1].next) == old(NodeAt(i));
      }
    }

    /** One turn of the loop of `InitializeRamdisk`: registers the member and steps over it. */
    method RegisterMember(rdstart: int, ghost f: File) returns (o: Outcome<int>)
      requires Valid() && heap.Valid() && A.CleanSplit(heap.pool, heap.arena, Q.FILE_NODE)
      requires WellFormed(f) && Holds(heap.alloc.ram, rdstart, Member(f))
      requires Clear(heap.head, heap.pool, rdstart, rdstart + |Member(f)|)
      modifies this`list, this`files, filehead`next, heap`arena, heap.alloc`ram, heap.alloc.frameList
      ensures match A.Allot(heap.pool, old(heap.arena), Q.FILE_NODE)
              case Panic => o == Panic
              case Fault => o == Fault
              case Done((h, _)) =>
                && o == Done(rdstart + Extent(|f.data|)) && Valid() && heap.Valid() && heap.arena == h
                && LeavesAlone(old(heap.alloc.ram), heap.alloc.ram, heap.head, heap.pool)
                && files == [FileEntry(f.path, |f.data|, rdstart + BLOCK)] + old(files)
                && |list| > 0 && fresh(list[0]) && fresh(list[0].filePath) && list[1..] == old(list)
    {
      hide Member, Octal, Peek, Extent, Advance, Holds, Distinct, Links, Contents, A.Allot, HB.HeapState, A.CleanSplit,
        LeavesAlone;
      MemberInMemory(heap.alloc.ram, rdstart, f);
      MemberLength(f);
      var size := DecodeValue(heap.alloc.ram, rdstart + SIZE_FIELD);
      ghost var ram := heap.alloc.ram;
      assert Clear(heap.head, heap.pool, rdstart, rdstart + |f.path| + 1);
      var inserted := InsertEntry(rdstart, size, rdstart + BLOCK, f.path);
      if inserted.IsFailure() {
        return inserted.PropagateFailure();
      }
      ClearSame(ram, heap.alloc.ram, heap.head, heap.pool, rdstart, rdstart + |Member(f)|);
      HoldsKept(ram, heap.alloc.ram, rdstart, Member(f));
      MemberInMemory(heap.alloc.ram, rdstart, f);
      var again := DecodeValue(heap.alloc.ram, rdstart + SIZE_FIELD);
      AdvanceWithin(again);
      return Done(rdstart + Advance(again));
    }

    /** `InitializeRamdisk`: for every archive it terminates. It registers every member, newest first, if `malloc` serves
        a node for each, and ends as `malloc` does otherwise. */
    method InitializeRamdisk(ramdiskOffset: int, ghost archive: seq<File>) returns (o: Outcome<()>)
      requires Valid() && heap.Valid() && ArchiveAt(heap.alloc.ram, ramdiskOffset, archive)
      requires Clear(heap.head, heap.pool, ramdiskOffset, ramdiskOffset + Offset(archive, |archive|) + 1)
      requires A.Enabled(heap.pool, heap.arena, Q.Repeat(Q.FILE_NODE, |archive|))
      modifies this, filehead`next, heap`arena, heap.alloc`ram, heap.alloc.frameList
      ensures match A.Run(heap.pool, old(heap.arena), Q.Repeat(Q.FILE_NODE, |archive|))
              case Panic => o == Panic
              case Fault => o == Fault
              case Done(h) =>
                && o == Done(()) && Valid() && heap.Valid() && heap.arena == h && ramdiskInitialized
                && files == Nodes(archive, ramdiskOffset, |archive|) + old(files)
                && ArchiveAt(heap.alloc.ram, ramdiskOffset, archive)
                && forall n :: n in list ==> n in old(list) || fresh(n.filePath)
    {
      hide Member, Octal, Peek, Extent, Holds, Offset, Nodes, ArchiveAt, Registered, Distinct, Links, Contents, NodeOf,
        A.Run, A.Enabled, Q.Repeat, HB.HeapState, Clear, WellFormed, MemberAt;
      NothingRegistered(files, archive, ramdiskOffset);
      var rdstart := ramdiskOffset;
      ghost var k := 0;
      ghost var total := |archive|;
      while Peek(heap.alloc.ram, rdstart) != 0
        invariant 0 <= k <= total && rdstart == ramdiskOffset + Offset(archive, k)
        invariant Valid() && heap.Valid() && Registered(files, old(files), archive, ramdiskOffset, k)
        invariant ArchiveAt(heap.alloc.ram, ramdiskOffset, archive)
        invariant A.Enabled(heap.pool, heap.arena, Q.Repeat(Q.FILE_NODE, total - k))
        invariant A.Run(heap.pool, heap.arena, Q.Repeat(Q.FILE_NODE, total - k))
               == A.Run(heap.pool, old(heap.arena), Q.Repeat(Q.FILE_NODE, total))
        invariant forall n :: n in list ==> n in old(list) || fresh(n.filePath)
        decreases total - k
      {
        AtMember(heap.alloc.ram, ramdiskOffset, archive, k);
        RegisterOne(files, old(files), archive, ramdiskOffset, k);
        ghost var before := list;
        var next := RegisterNext(ramdiskOffset, rdstart, archive, k);
        if next.IsFailure() {
          return next.PropagateFailure();
        }
        rdstart := next.value;
        assert list == [list[0]] + before;
        k := k + 1;
      }
      AtMember(heap.alloc.ram, ramdiskOffset, archive, k);
      Unregister(files, old(files), archive, ramdiskOffset, k);
      Q.NoRequests(heap.pool, heap.arena, Q.FILE_NODE);
      ramdiskInitialized := true;
      return Done(());
    }

    /** The same for the k-th member of an archive, which survives. */
    method RegisterNext(ramdiskOffset: int, rdstart: int, ghost archive: seq<File>, ghost k: nat) returns (o: Outcome<int>)
      requires Valid() && heap.Valid() && ArchiveAt(heap.alloc.ram, ramdiskOffset, archive) && k < |archive|
      requires rdstart == ramdiskOffset + Offset(archive, k)
      requires Clear(heap.head, heap.pool, ramdiskOffset, ramdiskOffset + Offset(archive, |archive|) + 1)
      requires A.Enabled(heap.pool, heap.arena, Q.Repeat(Q.FILE_NODE, |archive| - k))
      modifies this`list, this`files, filehead`next, heap`arena, heap.alloc`ram, heap.alloc.frameList
      ensures o.Panic? ==> A.Run(heap.pool, old(heap.arena), Q.Repeat(Q.FILE_NODE, |archive| - k)) == Panic
      ensures o.Fault? ==> A.Run(heap.pool, old(heap.arena), Q.Repeat(Q.FILE_NODE, |archive| - k)) == Fault
      ensures o.Done? ==>
                && o.value == ramdiskOffset + Offset(archive, k + 1) && Valid() && heap.Valid()
                && ArchiveAt(heap.alloc.ram, ramdiskOffset, archive)
                && files == [NodeOf(archive, ramdiskOffset, k)] + old(files)
                && |list| > 0 && fresh(list[0]) && fresh(list[0].filePath) && list[1..] == old(list)
                && A.Enabled(heap.pool, heap.arena, Q.Repeat(Q.FILE_NODE, |archive| - (k + 1)))
                && A.Run(heap.pool, heap.arena, Q.Repeat(Q.FILE_NODE, |archive| - (k + 1)))
                   == A.Run(heap.pool, old(heap.arena), Q.Repeat(Q.FILE_NODE, |archive| - k))
    {
      hide Member, Octal, Peek, Extent, Holds, Offset, ArchiveAt, Distinct, Links, Contents,
        A.Allot, A.Run, A.Enabled, Q.Repeat, HB.HeapState, A.CleanSplit, LeavesAlone, Clear, WellFormed;
      ghost var ram := heap.alloc.ram;
      AtMember(ram, ramdiskOffset, archive, k);
      Q.RepeatStep(heap.pool, heap.arena, Q.FILE_NODE, |archive| - k);
      ArchiveWellFormed(ram, ramdiskOffset, archive);
      ClearMember(heap.head, heap.pool, ramdiskOffset, archive, k);
      o := RegisterMember(rdstart, archive[k]);
      if o.Done? {
        OffsetHere(archive, k);
        ClearSame(ram, heap.alloc.ram, heap.head, heap.pool, ramdiskOffset, ramdiskOffset + Offset(archive, |archive|) + 1);
        ArchiveKept(ram, heap.alloc.ram, ramdiskOffset, archive);
      }
    }

    /** `RdFileGetFrame`: walks the list to the first match. */
    method RdFileGetFrame(path: seq<Byte>) returns (r: FileNode?)
      requires Valid() && 0 !in path
      ensures r == null <==> !ramdiskInitialized || Lookup(files, path).None?
      ensures r != null ==> r in list && r.Value() == Lookup(files, path).value
    {
      hide Text, Cut;
      if !ramdiskInitialized {
        return null;
      }
      var current := filehead;
      ghost var i := 0;
      while current.next != null
        invariant 0 <= i <= |list| && current == (if i == 0 then filehead else list[i - 1])
        invariant Lookup(files, path) == Lookup(files[i..], path)
        decreases |list| - i
      {
        assert current.next == list[i] && list[i].Value() == files[i];
        var c := StrNCmp(path, Text(current.next.filePath[..]), PATH);
        assert files[i..] == [files[i]] + files[i + 1..];
        LookupCons(files[i], files[i + 1..], path);
        if c == 0 {
          return current.next;
        }
        current := current.next;
        i := i + 1;
      }
      assert files[i..] == [];
      return null;
    }

    method RdFileGetSz(path: seq<Byte>) returns (size: nat)
      requires Valid() && 0 !in path
      ensures size == if ramdiskInitialized && Lookup(files, path).Some? then Lookup(files, path).value.size else 0
    {
      hide Lookup, Text, Distinct, Links, Contents;
      if !ramdiskInitialized {
        return 0;
      }
      var frame := RdFileGetFrame(path);
      if frame == null {
        return 0;
      }
      return frame.fileSize;
    }

    /** `RdFileGetStream`: copies n bytes from the start of the file, or leaves the buffer alone. */
    method RdFileGetStream(path: seq<Byte>, buffer: array<Byte>, n: nat)
      requires Valid() && 0 !in path
      requires n <= buffer.Length && forall f :: f in list ==> f.filePath != buffer
      modifies buffer
      ensures Valid()
      ensures !ramdiskInitialized || Lookup(files, path).None? || Lookup(files, path).value.begin == 0 ==>
                buffer[..] == old(buffer[..])
      ensures ramdiskInitialized && Lookup(files, path).Some? && Lookup(files, path).value.begin != 0 ==>
                Holds(heap.alloc.ram, Lookup(files, path).value.begin, buffer[..n]) && buffer[n..] == old(buffer[n..])
    {
      hide Lookup, Text, Distinct, Links, Contents;
      if !ramdiskInitialized {
        return;
      }
      var frame := RdFileGetFrame(path);
      if frame == null {
        return;
      }
      if frame.fileBegin == 0 {
        return;
      }
      CopyIn(heap.alloc.ram, frame.fileBegin, buffer, n);
    }

    /** Reading a file back: initialize, ask for the size, fetch that many bytes. For every archive for whose nodes there is
        room, and every path, this gives the bytes of the last file with the path, and nothing if there is none. */
    method ReadBack(ramdiskOffset: int, path: seq<Byte>, buffer: array<Byte>, ghost archive: seq<File>) returns (o: Outcome<nat>)
      requires Valid() && heap.Valid() && files == [] && list == []
      requires ArchiveAt(heap.alloc.ram, ramdiskOffset, archive) && 0 <= ramdiskOffset && 0 !in path
      requires Clear(heap.head, heap.pool, ramdiskOffset, ramdiskOffset + Offset(archive, |archive|) + 1)
      requires A.Enabled(heap.pool, heap.arena, Q.Repeat(Q.FILE_NODE, |archive|))
      modifies this, filehead`next, heap`arena, heap.alloc`ram, heap.alloc.frameList, buffer
      ensures match A.Run(heap.pool, old(heap.arena), Q.Repeat(Q.FILE_NODE, |archive|))
              case Panic => o == Panic
              case Fault => o == Fault
              case Done(_) =>
                && o.Done? && Valid() && heap.Valid()
                && var size, i := o.value, LastIndex(archive, path, |archive|);
                   && (i < 0 ==> size == 0 && buffer[..] == old(buffer[..]))
                   && (i >= 0 ==> size == |archive[i].data|)
                   && (i >= 0 && size <= buffer.Length ==>
                         buffer[..size] == archive[i].data && buffer[size..] == old(buffer[size..]))
                   && (size > buffer.Length ==> buffer[..] == old(buffer[..]))
    {
      hide Lookup, Text, Distinct, Links, Contents, ArchiveAt, Holds, LastIndex, Nodes, A.Run, A.Enabled, Q.Repeat, HB.HeapState, Clear;
      var started := InitializeRamdisk(ramdiskOffset, archive);
      if started.IsFailure() {
        return started.PropagateFailure();
      }
      assert files == Nodes(archive, ramdiskOffset, |archive|);
      FoundFile(heap.alloc.ram, ramdiskOffset, archive, path);
      var size := RdFileGetSz(path);
      if size <= buffer.Length {
        RdFileGetStream(path, buffer, size);
        ghost var i := LastIndex(archive, path, |archive|);
        if i >= 0 {
          HoldsUnique(heap.alloc.ram, Lookup(files, path).value.begin, buffer[..size], archive[i].data);
        }
      }
      return Done(size);
    }
  }

  lemma ArchiveWellFormed(m: Memory, a: int, files: seq<File>)
    requires ArchiveAt(m, a, files)
    ensures AllWellFormed(files)
  {
    hide MemberAt;
  }

  lemma OffsetHere(files: seq<File>, k: nat)
    requires k < |files|
    ensures Offset(files, k + 1) == Offset(files, k) + Extent(|files[k].data|)
  {
  }

  lemma ClearMember(head: nat, pool: A.Pool, a: int, files: seq<File>, k: nat)
    requires k < |files| && AllWellFormed(files) && Clear(head, pool, a, a + Offset(files, |files|) + 1)
    ensures WellFormed(files[k]) && Clear(head, pool, a + Offset(files, k), a + Offset(files, k) + |Member(files[k])|)
  {
    hide Member, Extent, Offset;
    assert WellFormed(files[k]);
    hide WellFormed;
    MemberSpan(files, k);
  }

  /** `memcpy` from memory. */
  method CopyIn(m: Memory, src: int, buffer: array<Byte>, n: nat)
    requires n <= buffer.Length
    modifies buffer
    ensures Holds(m, src, buffer[..n]) && buffer[n..] == old(buffer[n..])
  {
    hide Peek;
    var i := 0;
    while i < n
      invariant 0 <= i <= n
      invariant forall j :: 0 <= j < i ==> buffer[j] == Peek(m, src + j)
      invariant forall j :: n <= j < buffer.Length ==> buffer[j] == old(buffer[j])
    {
      buffer[i] := Peek(m, src + i);
      i := i + 1;
    }
  }

  lemma HoldsUnique(m: Memory, a: int, s: seq<Byte>, t: seq<Byte>)
    requires Holds(m, a, s) && Holds(m, a, t) && |s| == |t|
    ensures s == t
  {
    forall i | 0 <= i < |s| ensures s[i] == t[i] {
      assert Peek(m, a + i) == s[i];
    }
  }

  lemma LastIndexNone(archive: seq<File>, path: seq<Byte>)
    ensures LastIndex(archive, path, |archive|) < 0 <==> forall f :: f in archive ==> f.path != path
  {
    var i := LastIndex(archive, path, |archive|);
    if i >= 0 {
      assert archive[i] in archive;
    }
  }

  /** Reading undoes writing: for every archive and every path, what the kernel finds is the size and the
      bytes of the last member with that path, and nothing if there is none. */
  lemma ReaderUndoesWriter(m: Memory, a: int, archive: seq<File>, path: seq<Byte>)
    requires ArchiveAt(m, a, archive)
    ensures var found := Lookup(Nodes(archive, a, |archive|), path);
            && (found.None? <==> forall f :: f in archive ==> f.path != path)
            && (found.Some? ==>
                  var i := LastIndex(archive, path, |archive|);
                  && 0 <= i && archive[i].path == path
                  && found.value.size == |archive[i].data|
                  && Holds(m, found.value.begin, archive[i].data))
  {
    hide Member, Peek, Holds, Lookup, Nodes, LastIndex, Octal, Extent;
    LookupFindsLast(archive, a, path, |archive|);
    LastIndexNone(archive, path);
    var i := LastIndex(archive, path, |archive|);
    if i >= 0 {
      assert MemberAt(m, a, archive, i);
      MemberInMemory(m, a + Offset(archive, i), archive[i]);
    }
  }

  /** The same in terms of the last index, with the data at a real address. */
  lemma FoundFile(m: Memory, a: int, archive: seq<File>, path: seq<Byte>)
    requires ArchiveAt(m, a, archive) && 0 <= a
    ensures var found := Lookup(Nodes(archive, a, |archive|), path);
            var i := LastIndex(archive, path, |archive|);
            && (found.None? <==> i < 0)
            && (i >= 0 ==> found.value.size == |archive[i].data| && found.value.begin > 0
                           && Holds(m, found.value.begin, archive[i].data))
  {
    hide Peek, Holds, Lookup, Nodes, LastIndex, Extent, Offset, MemberAt;
    ReaderUndoesWriter(m, a, archive, path);
    LookupFindsLast(archive, a, path, |archive|);
  }
}
