/** The walk over the interrupt controller structures of the ACPI MADT (src/drivers/apic/apic.c), section
    5.2.12 of ACPI 6.5. */
module Madt {
  import opened Ram

  const HEADER: int := 44 // what precedes the structures; the source computes it as sizeof(struct MADT) - 2
  const U32: int := 0x1_0000_0000
  const IO_APIC: Byte := 1

  /** One structure: a type, a length byte that counts the whole structure, and the rest. */
  datatype Structure = Structure(kind: Byte, body: seq<Byte>) {
    function Size(): nat {
      2 + |body|
    }

    /** The length fits its byte, and an I/O APIC structure has its address. */
    ghost predicate WellFormed() {
      Size() < 256 && (kind == IO_APIC ==> |body| >= 10)
    }
  }

  /** Where the k-th structure starts, counted from the first. */
  ghost function Offset(s: seq<Structure>, k: nat): nat
    requires k <= |s|
  {
    if k == 0 then 0 else Offset(s, k - 1) + s[k - 1].Size()
  }

  lemma {:induction false} OffsetGrows(s: seq<Structure>, k: nat, n: nat)
    requires k <= n <= |s|
    ensures Offset(s, k) + (n - k) <= Offset(s, n)
    decreases n
  {
    if k < n {
      OffsetGrows(s, k, n - 1);
    }
  }

  ghost predicate StructureAt(m: Memory, a: int, x: Structure) {
    && Peek(m, a) == x.kind && Peek(m, a + 1) == x.Size()
    && forall i :: 0 <= i < |x.body| ==> Peek(m, a + 2 + i) == x.body[i]
  }

  ghost predicate Placed(m: Memory, madt: int, s: seq<Structure>, k: nat)
    requires k < |s|
  {
    StructureAt(m, madt + HEADER + Offset(s, k), s[k])
  }

  /** A well-formed table: the length field covers exactly the header and the structures. */
  ghost predicate TableAt(m: Memory, madt: int, s: seq<Structure>) {
    && Load(m, madt + 4, madt + 8) == HEADER + Offset(s, |s|) < U32
    && (forall k :: 0 <= k < |s| ==> s[k].WellFormed())
    && (forall k :: 0 <= k < |s| ==> Placed(m, madt, s, k))
  }

  /** The address in an I/O APIC structure: four bytes after the id and a reserved byte. */
  function IoApicAddress(body: seq<Byte>): nat
    requires |body| >= 10
  {
    LittleEndian(body[2], body[3], body[4], body[5])
  }

  function LittleEndian(b0: nat, b1: nat, b2: nat, b3: nat): nat {
    b0 + 256 * (b1 + 256 * (b2 + 256 * b3))
  }

  /** The address in the last I/O APIC structure among the first k, or what was known before. */
  ghost function LastIoApic(s: seq<Structure>, k: nat, before: int): int
    requires k <= |s| && forall i :: 0 <= i < |s| ==> s[i].WellFormed()
  {
    if k == 0 then before
    else if assert s[k - 1].WellFormed(); s[k - 1].kind == IO_APIC then IoApicAddress(s[k - 1].body)
    else LastIoApic(s, k - 1, before)
  }

  /** The result by index: with an I/O APIC structure among the first k, the address in the last such structure; without
      one, what was known before. */
  lemma {:induction false} LastIoApicIs(s: seq<Structure>, k: nat, before: int)
    requires k <= |s| && forall i :: 0 <= i < |s| ==> s[i].WellFormed()
    ensures (forall i :: 0 <= i < k ==> s[i].kind != IO_APIC) ==> LastIoApic(s, k, before) == before
    ensures forall i {:trigger IoApicAddress(s[i].body)} ::
              0 <= i < k && s[i].WellFormed() && s[i].kind == IO_APIC && (forall j :: i < j < k ==> s[j].kind != IO_APIC) ==>
                LastIoApic(s, k, before) == IoApicAddress(s[i].body)
    decreases k
  {
    hide IoApicAddress;
    if k > 0 {
      LastIoApicIs(s, k - 1, before);
    }
  }

  lemma AddressInMemory(m: Memory, a: int, x: Structure)
    requires StructureAt(m, a, x) && x.WellFormed() && x.kind == IO_APIC
    ensures Load(m, a + 4, a + 8) == IoApicAddress(x.body)
  {
    assert Peek(m, a + 2 + 2) == x.body[2] && Peek(m, a + 2 + 3) == x.body[3];
    assert Peek(m, a + 2 + 4) == x.body[4] && Peek(m, a + 2 + 5) == x.body[5];
    assert Load(m, a + 8, a + 8) == 0;
    assert Load(m, a + 7, a + 8) == Peek(m, a + 7);
    assert Load(m, a + 6, a + 8) == Peek(m, a + 6) + 256 * Load(m, a + 7, a + 8);
  }

  /** The loop of `InitializeAPIC`: for every well-formed table it terminates, meets the types of the
      structures in order, each once, stops exactly at the end of the table and keeps the address of the
      last I/O APIC. The 32-bit countdown never wraps. */
  method FindIoApic(m: Memory, madt: int, ioApicBefore: int, ghost s: seq<Structure>)
      returns (ioApic: int, seen: seq<Byte>, end: int)
    requires TableAt(m, madt, s)
    ensures ioApic == LastIoApic(s, |s|, ioApicBefore)
    ensures (forall i :: 0 <= i < |s| ==> s[i].kind != IO_APIC) ==> ioApic == ioApicBefore
    ensures forall i {:trigger IoApicAddress(s[i].body)} ::
              0 <= i < |s| && s[i].WellFormed() && s[i].kind == IO_APIC && (forall j :: i < j < |s| ==> s[j].kind != IO_APIC) ==>
                ioApic == IoApicAddress(s[i].body)
    ensures |seen| == |s| && forall i :: 0 <= i < |s| ==> seen[i] == s[i].kind
    ensures end == madt + Load(m, madt + 4, madt + 8)
  {
    hide Peek, Load;
    ioApic := ioApicBefore;
    seen := [];
    var current := madt + HEADER;
    var length := (Load(m, madt + 4, madt + 8) - 46 + 2) % U32;
    ghost var k := 0;
    while length > 0
      invariant 0 <= k <= |s| && current == madt + HEADER + Offset(s, k)
      invariant length == Offset(s, |s|) - Offset(s, k)
      invariant ioApic == LastIoApic(s, k, ioApicBefore)
      invariant |seen| == k && forall i :: 0 <= i < k ==> seen[i] == s[i].kind
      decreases length
    {
      assert Placed(m, madt, s, k) && s[k].WellFormed();
      OffsetGrows(s, k + 1, |s|);
      var kind := Peek(m, current);
      if kind == 1 {
        AddressInMemory(m, current, s[k]);
        ioApic := Load(m, current + 4, current + 8);
      }
      seen := seen + [kind];
      length := (length - Peek(m, current + 1)) % U32;
      current := current + Peek(m, current + 1);
      k := k + 1;
    }
    OffsetGrows(s, k, |s|);
    LastIoApicIs(s, |s|, ioApicBefore);
    end := current;
  }
}
