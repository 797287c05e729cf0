/** The I/O APIC (src/drivers/apic/apic.c): redirection entries written and read through the
    select/window register pair, section 3.2.4 of the Intel 82093AA datasheet. */
module IoApic {
  import Arith

  /** `struct IOAPICRedirectionEntry`, low bit first. */
  datatype RedirectionEntry = RedirectionEntry(
    interruptVector: bv8, deliveryMode: bv3, destinationMode: bv1, busy: bv1, polarity: bv1, ltiStatus: bv1,
    triggerMode: bv1, interruptMask: bv1, reserved: bv39, destination: bv8)

  const EMPTY := RedirectionEntry(0, 0, 0, 0, 0, 0, 0, 0, 0, 0)

  function Pack(e: RedirectionEntry): bv64 {
    (e.interruptVector as bv64)
    | ((e.deliveryMode as bv64) << 8)
    | ((e.destinationMode as bv64) << 11)
    | ((e.busy as bv64) << 12)
    | ((e.polarity as bv64) << 13)
    | ((e.ltiStatus as bv64) << 14)
    | ((e.triggerMode as bv64) << 15)
    | ((e.interruptMask as bv64) << 16)
    | ((e.reserved as bv64) << 17)
    | ((e.destination as bv64) << 56)
  }

  function Unpack(w: bv64): RedirectionEntry {
    RedirectionEntry(
      (w & 0xFF) as bv8, ((w >> 8) & 7) as bv3, ((w >> 11) & 1) as bv1, ((w >> 12) & 1) as bv1, ((w >> 13) & 1) as bv1,
      ((w >> 14) & 1) as bv1, ((w >> 15) & 1) as bv1, ((w >> 16) & 1) as bv1, ((w >> 17) & 0x7F_FFFF_FFFF) as bv39,
      ((w >> 56) & 0xFF) as bv8)
  }

  lemma UnpackPack(e: RedirectionEntry)
    ensures Unpack(Pack(e)) == e
  {
  }

  /** Where the chip finds the fields of an entry in its 64 bits. */
  lemma FieldPositions(e: RedirectionEntry)
    ensures var w := Pack(e);
            && (w & 0xFF) as bv8 == e.interruptVector && ((w >> 8) & 7) as bv3 == e.deliveryMode
            && ((w >> 11) & 1) as bv1 == e.destinationMode && ((w >> 12) & 1) as bv1 == e.busy
            && ((w >> 13) & 1) as bv1 == e.polarity && ((w >> 14) & 1) as bv1 == e.ltiStatus
            && ((w >> 15) & 1) as bv1 == e.triggerMode && ((w >> 16) & 1) as bv1 == e.interruptMask
            && ((w >> 17) & 0x7F_FFFF_FFFF) as bv39 == e.reserved && (w >> 56) as bv8 == e.destination
  {
  }

  // ---- the chip

  const REDIRECTION_BASE: nat := 0x10
  const PINS: nat := 120 // pins whose registers end at 0xFF

  /** The register file behind the window. */
  type Registers = r: seq<bv32> | |r| == 256 witness seq(256, i => 0)

  /** The delivery status and the remote IRR of an entry belong to the hardware: a write to the low half
      keeps them. */
  function Latch(old_: bv32, written: bv32): bv32 {
    (written & 0xFFFF_AFFF) | (old_ & 0x5000)
  }

  predicate IsLowHalf(reg: nat) {
    reg >= REDIRECTION_BASE && reg % 2 == 0
  }

  /** A store to the window while `reg` is selected. Below the redirection entries only four bits of the identity register
      can be written. */
  function Stored(r: Registers, reg: nat, v: bv32): Registers
    requires reg < 256
  {
    if reg == 0 then r[0 := (v & 0x0F00_0000) | (r[0] & 0xF0FF_FFFF)]
    else if reg < REDIRECTION_BASE then r
    else r[reg := if IsLowHalf(reg) then Latch(r[reg], v) else v]
  }

  function Low(w: bv64): bv32 {
    (w & 0xFFFF_FFFF) as bv32
  }

  function High(w: bv64): bv32 {
    (w >> 32) as bv32
  }

  function Join(high: bv32, low: bv32): bv64 {
    ((high as bv64) << 32) | (low as bv64)
  }

  /** The register at an offset into the redirection entries, cut to 8 bits. */
  function Register(offset: nat): (r: nat)
    ensures r < 256
  {
    (REDIRECTION_BASE + offset) % 256
  }

  /** The registers after `IOAPICWriteRedirectionEntry`, and what `IOAPICReadRedirectionEntry` returns. */
  function WriteEntry(r: Registers, offset: nat, e: RedirectionEntry): Registers {
    if offset % 2 != 0 then r
    else
      var first := Stored(r, Register(offset), Low(Pack(e)));
      Stored(first, Register(offset + 1), High(Pack(e)))
  }

  function ReadEntry(r: Registers, offset: nat): RedirectionEntry {
    if offset % 2 != 0 then EMPTY
    else Unpack(Join(r[Register(offset + 1)], r[Register(offset)]))
  }

  /** Two entries agree in every field that software owns. */
  predicate SameFields(e: RedirectionEntry, f: RedirectionEntry) {
    e.(busy := 0, ltiStatus := 0) == f.(busy := 0, ltiStatus := 0)
  }

  /** Latching disturbs only the two hardware bits. */
  lemma LatchedFields(old_: bv32, e: RedirectionEntry)
    ensures SameFields(Unpack(Join(High(Pack(e)), Latch(old_, Low(Pack(e))))), e)
    ensures var got := Unpack(Join(High(Pack(e)), Latch(old_, Low(Pack(e)))));
            got.busy == ((old_ >> 12) & 1) as bv1 && got.ltiStatus == ((old_ >> 14) & 1) as bv1
  {
  }

  /** The register numbers are cut to 8 bits: a pin has two neighbouring registers, and two pins share them exactly when
      they are equal modulo 128. */
  lemma PinRegisters(p: nat, q: nat)
    ensures Register(2 * p) % 2 == 0 && Register(2 * p) < 255 && Register(2 * p + 1) == Register(2 * p) + 1
    ensures Register(2 * p) == Register(2 * q) <==> p % 128 == q % 128
    ensures (Register(2 * p) >= REDIRECTION_BASE <==> p % 128 < PINS) && (Register(2 * p) == 0 <==> p % 128 == PINS)
  {
    LowRegister(p);
    LowRegister(q);
  }

  lemma LowRegister(p: nat)
    ensures var low := if p % 128 < PINS then REDIRECTION_BASE + 2 * (p % 128) else 2 * (p % 128) - 240;
            Register(2 * p) == low && Register(2 * p + 1) == low + 1
  {
    var n, r := p / 128, p % 128;
    if r < PINS {
      Arith.DivMod(REDIRECTION_BASE + 2 * p, 256, n, REDIRECTION_BASE + 2 * r);
      Arith.DivMod(REDIRECTION_BASE + 2 * p + 1, 256, n, REDIRECTION_BASE + 2 * r + 1);
    } else {
      Arith.DivMod(REDIRECTION_BASE + 2 * p, 256, n + 1, 2 * r - 240);
      Arith.DivMod(REDIRECTION_BASE + 2 * p + 1, 256, n + 1, 2 * r - 239);
    }
  }

  /** A write reads back, field by field, through every pin that shares its registers, if they are those of a
      redirection entry, and no other pin notices. */
  lemma WriteThenRead(r: Registers, p: nat, q: nat, e: RedirectionEntry)
    ensures var r' := WriteEntry(r, 2 * p, e);
            && (p % 128 != q % 128 || p % 128 > PINS ==> ReadEntry(r', 2 * q) == ReadEntry(r, 2 * q))
            && (p % 128 == q % 128 < PINS ==> SameFields(ReadEntry(r', 2 * q), e))
  {
    hide Pack, Unpack, Join, Low, High, Stored, SameFields, Register, WriteEntry, ReadEntry;
    EvenOffset(r, p, e);
    EvenOffset(r, q, e);
    EvenOffset(WriteEntry(r, 2 * p, e), q, e);
    PinRegisters(p, q);
    PinRegisters(q, p);
    StoredHalves(r, Register(2 * p), Register(2 * q), e);
  }

  lemma EvenOffset(r: Registers, p: nat, e: RedirectionEntry)
    ensures WriteEntry(r, 2 * p, e) ==
              Stored(Stored(r, Register(2 * p), Low(Pack(e))), Register(2 * p + 1), High(Pack(e)))
    ensures ReadEntry(r, 2 * p) == Unpack(Join(r[Register(2 * p + 1)], r[Register(2 * p)]))
  {
    hide Pack, Unpack, Join, Low, High, Stored, Register;
  }

  /** Storing both halves at one pair of registers and reading another. */
  lemma StoredHalves(r: Registers, low: nat, low': nat, e: RedirectionEntry)
    requires low % 2 == 0 && low' % 2 == 0 && low < 255 && low' < 255
    ensures var r' := Stored(Stored(r, low, Low(Pack(e))), low + 1, High(Pack(e)));
            && (low == low' && low >= REDIRECTION_BASE ==> SameFields(Unpack(Join(r'[low + 1], r'[low])), e))
            && (low != low' || 0 < low < REDIRECTION_BASE ==> r'[low'] == r[low'] && r'[low' + 1] == r[low' + 1])
  {
    hide Pack, Unpack, Join, Low, High, Latch;
    LatchedFields(r[low], e);
  }

  /** Isolation, exactly: a write to one pin leaves what another reads alone in every register file if and only if the
      pins differ modulo 128, or the pin written has only read-only registers (121 to 127, modulo 128). */
  lemma IsolatedIff(p: nat, q: nat)
    ensures (forall r: Registers, e: RedirectionEntry {:trigger WriteEntry(r, 2 * p, e)} ::
               ReadEntry(WriteEntry(r, 2 * p, e), 2 * q) == ReadEntry(r, 2 * q))
            <==> p % 128 != q % 128 || p % 128 > PINS
  {
    hide WriteEntry;
    forall r: Registers, e: RedirectionEntry
      ensures p % 128 != q % 128 || p % 128 > PINS ==> ReadEntry(WriteEntry(r, 2 * p, e), 2 * q) == ReadEntry(r, 2 * q)
    {
      WriteThenRead(r, p, q, e);
    }
    if p % 128 == q % 128 && p % 128 <= PINS {
      var r: Registers := seq(256, i => 0);
      var e := EMPTY.(interruptVector := 1, reserved := 0x80);
      if p % 128 < PINS {
        WriteThenRead(r, p, q, e);
        assert ReadEntry(r, 2 * q).interruptVector == 0;
      } else {
        IdentityWritten(p, q);
      }
      assert ReadEntry(WriteEntry(r, 2 * p, e), 2 * q) != ReadEntry(r, 2 * q);
    }
  }

  /** The pins 120 and 248 write the identity register: bit 24 of a low half is bit 7 of the reserved field. */
  lemma IdentityWritten(p: nat, q: nat)
    requires p % 128 == PINS && q % 128 == PINS
    ensures var r: Registers := seq(256, i => 0);
            var e := EMPTY.(interruptVector := 1, reserved := 0x80);
            ReadEntry(WriteEntry(r, 2 * p, e), 2 * q) != ReadEntry(r, 2 * q)
  {
    hide Register, Pack, Unpack, Join, Low, High, WriteEntry, ReadEntry;
    LowRegister(p);
    LowRegister(q);
    IdentityBits();
    var r: Registers := seq(256, i => 0);
    var e := EMPTY.(interruptVector := 1, reserved := 0x80);
    EvenOffset(r, p, e);
    EvenOffset(r, q, e);
    EvenOffset(WriteEntry(r, 2 * p, e), q, e);
  }

  lemma IdentityBits()
    ensures Low(Pack(EMPTY.(interruptVector := 1, reserved := 0x80))) == 0x0100_0001
    ensures Unpack(Join(0, 0x0100_0000)).reserved == 0x80 && Unpack(Join(0, 0)).reserved == 0
    ensures (0x0100_0001 as bv32 & 0x0F00_0000) | (0 & 0xF0FF_FFFF) == 0x0100_0000
  {
  }

  // ---- every sequence of writes

  datatype Write = Write(pin: nat, entry: RedirectionEntry)

  function WriteAll(r: Registers, writes: seq<Write>): Registers
    decreases |writes|
  {
    if writes == [] then r
    else
      var w := writes[|writes| - 1];
      WriteEntry(WriteAll(r, writes[..|writes| - 1]), 2 * w.pin, w.entry)
  }

  /** The position of the last write to the registers of a pin, or -1. */
  ghost function LastWrite(writes: seq<Write>, pin: nat): (k: int)
    ensures -1 <= k < |writes|
    ensures k >= 0 ==> writes[k].pin % 128 == pin % 128
    ensures forall i :: k < i < |writes| ==> writes[i].pin % 128 != pin % 128
    decreases |writes|
  {
    if writes == [] then -1
    else if writes[|writes| - 1].pin % 128 == pin % 128 then |writes| - 1
    else LastWrite(writes[..|writes| - 1], pin)
  }

  /** After any sequence of writes to any pins, reading a pin of a redirection entry gives the last entry written to its
      registers; a pin that was never written, or whose registers are read-only, reads as before. */
  lemma {:induction false} ReadsLastWritten(r: Registers, writes: seq<Write>, pin: nat)
    ensures var k := LastWrite(writes, pin);
            var got := ReadEntry(WriteAll(r, writes), 2 * pin);
            if k < 0 || pin % 128 > PINS then got == ReadEntry(r, 2 * pin)
            else pin % 128 < PINS ==> SameFields(got, writes[k].entry)
    decreases |writes|
  {
    hide WriteEntry, ReadEntry, SameFields;
    if writes != [] {
      var init, w := writes[..|writes| - 1], writes[|writes| - 1];
      ReadsLastWritten(r, init, pin);
      WriteThenRead(WriteAll(r, init), w.pin, pin, w.entry);
    }
  }

  /** Pins are passed as 8-bit numbers and register numbers are cut to 8 bits: the two registers of a pin
      are clear of the identity, version and arbitration registers exactly when the pin, modulo 128, is
      below 120. */
  lemma HeaderRegistersClearIff(pin: nat)
    ensures Register(2 * pin) >= REDIRECTION_BASE && Register(2 * pin + 1) >= REDIRECTION_BASE
            <==> pin % 128 < PINS
  {
    LowRegister(pin);
  }

  /** The two halves of an entry that only names a vector. */
  lemma VectorHalves(vector: bv8)
    ensures Low(Pack(EMPTY.(interruptVector := vector))) == vector as bv32
    ensures High(Pack(EMPTY.(interruptVector := vector))) == 0
  {
  }

  /** The raw registers after such an entry is written: the vector and nothing else, but for the two hardware bits. */
  lemma VectorWritten(r: Registers, pin: nat, vector: bv8)
    requires pin % 128 < 120
    ensures var r' := WriteEntry(r, 2 * pin, EMPTY.(interruptVector := vector));
            && r'[(0x10 + 2 * pin) % 256] & 0xFFFF_AFFF == vector as bv32
            && r'[(0x10 + 2 * pin + 1) % 256] == 0
  {
    VectorHalves(vector);
    hide Pack, Low, High, WriteEntry, ReadEntry, Latch;
    var e := EMPTY.(interruptVector := vector);
    EvenOffset(r, pin, e);
    LowRegister(pin);
    VectorLatched(r[Register(2 * pin)], vector);
  }

  lemma VectorLatched(old_: bv32, vector: bv8)
    ensures Latch(old_, vector as bv32) & 0xFFFF_AFFF == vector as bv32
  {
  }

  // ---- the code

  class Chip {
    var select: nat
    var registers: Registers

    constructor (contents: Registers)
      ensures registers == contents
    {
      select := 0;
      registers := contents;
    }

    /** A store to `target[0]`. */
    method StoreSelect(v: nat)
      modifies this`select
      ensures select == v
    {
      select := v;
    }

    /** `IOAPICRead`. */
    method Read(reg: nat) returns (v: bv32)
      modifies this`select
      ensures v == registers[reg % 256]
    {
      StoreSelect(reg % 256);
      v := registers[select];
    }

    /** `IOAPICWrite`. */
    method Write(reg: nat, value: bv32)
      modifies this
      ensures registers == Stored(old(registers), reg % 256, value)
    {
      StoreSelect(reg % 256);
      registers := Stored(registers, select, value);
    }

    /** `IOAPICReadRedirectionEntry`. */
    method ReadRedirectionEntry(offset: nat) returns (e: RedirectionEntry)
      modifies this`select
      ensures e == ReadEntry(registers, offset)
    {
      hide Unpack, Join;
      if offset % 2 != 0 {
        return EMPTY;
      }
      var spl0 := Read(REDIRECTION_BASE + offset);
      var spl1 := Read(REDIRECTION_BASE + offset + 1);
      return Unpack(Join(spl1, spl0));
    }

    /** `IOAPICWriteRedirectionEntry`: fails, without a write, for an odd offset. */
    method WriteRedirectionEntry(offset: nat, value: RedirectionEntry) returns (ok: bool)
      modifies this
      ensures ok <==> offset % 2 == 0
      ensures registers == WriteEntry(old(registers), offset, value)
    {
      hide Pack, Low, High, Stored;
      if offset % 2 != 0 {
        return false;
      }
      var raw := Pack(value);
      Write(REDIRECTION_BASE + offset, Low(raw));
      Write(REDIRECTION_BASE + offset + 1, High(raw));
      return true;
    }

    /** `IOAPICRegisterIRQ`: the pin then delivers the vector, unmasked, to processor 0. */
    method RegisterIRQ(vector: bv8, pin: nat)
      modifies this
      ensures pin % 128 < PINS ==> SameFields(ReadEntry(registers, 2 * pin), EMPTY.(interruptVector := vector))
      ensures pin % 128 < 120 ==>
                && registers[(0x10 + 2 * pin) % 256] & 0xFFFF_AFFF == vector as bv32
                && registers[(0x10 + 2 * pin + 1) % 256] == 0
      ensures forall q: nat :: q % 128 != pin % 128 ==> ReadEntry(registers, 2 * q) == ReadEntry(old(registers), 2 * q)
    {
      hide WriteEntry, ReadEntry, SameFields;
      ghost var before := registers;
      var entry := EMPTY.(interruptVector := vector);
      var ok := WriteRedirectionEntry(pin * 2, entry);
      WriteThenRead(before, pin, pin, entry);
      if pin % 128 < 120 {
        VectorWritten(before, pin, vector);
      }
      forall q: nat | q % 128 != pin % 128 ensures ReadEntry(registers, 2 * q) == ReadEntry(before, 2 * q) {
        WriteThenRead(before, pin, q, entry);
      }
    }
  }
}
