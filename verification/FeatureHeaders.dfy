/**
 Device feature headers of driverso/fpga/dfl.h: 64-bit registers and their fields. The list walk
 works on the decoded fields, given for every byte address.
 */
module FeatureHeaders {
  import opened Common

  type Word = w: nat | w < U64

  /** The offset of the next header, 24 bits. */
  type Offset = n: nat | n < 0x100_0000

  const DFH_SIZE: nat := 8
  const NEXT_AFU: nat := 0x18
  const CSR_ADDR: nat := 0x18
  const CSR_SIZE_GRP: nat := 0x20
  const PARAM_HDR: nat := 0x28
  const PORT_CAP: nat := 0x30

  const TYPE_AFU: nat := 1
  const TYPE_PRIVATE: nat := 3
  const TYPE_FIU: nat := 4

  const ID_FIU_HEADER: nat := 0xfe
  const ID_AFU: nat := 0xff

  /** A feature header: bits 11 to 0, 15 to 12, 39 to 16, 40, 59 to 52 and 63 to 60. */
  datatype Dfh = Dfh(id: nat, revision: nat, next: Offset, endOfList: bool, version: nat, kind: nat)

  function DfhFields(v: Word): Dfh {
    Dfh(v % 0x1000, v / 0x1000 % 0x10, v / 0x1_0000 % 0x100_0000, v / 0x100_0000_0000 % 2 == 1,
        v / 0x10_0000_0000_0000 % 0x100, v / 0x1000_0000_0000_0000)
  }

  /** The register block of a version 1 feature: CSR_ADDR bits 63 to 1 and 0, CSR_SIZE_GRP bits 63 to 32 and 31. */
  datatype Csr = Csr(address: nat, absolute: bool, size: nat, hasParams: bool)

  function CsrFields(address: Word, group: Word): Csr {
    Csr(address / 2, address % 2 == 1, group / 0x1_0000_0000, group / 0x8000_0000 % 2 == 1)
  }

  /** A word of the parameter area read as a header: bits 15 to 0, 63 to 35, and 32. */
  datatype Param = Param(id: nat, next: nat, last: bool)

  function ParamFields(v: Word): Param {
    Param(v % 0x1_0000, v / 0x8_0000_0000, v / 0x1_0000_0000 % 2 == 1)
  }

  /** Everything that the walk reads, by the address of the header; parameter words also before the first one. */
  datatype Space = Space(
    dfh: nat -> Dfh,
    nextAfu: nat -> nat,
    portSize: nat -> nat,
    csr: nat -> Csr,
    params: nat -> (int -> Param))

  /** The fields in a register space: NEXT_AFU bits 23 to 0, and PORT_CAP bits 23 to 8 in KiB. */
  function Decoded(regs: int -> Word): Space {
    Space((a: nat) => DfhFields(regs(a)),
          (a: nat) => regs(a + NEXT_AFU) % 0x100_0000,
          (a: nat) => regs(a + PORT_CAP) / 0x100 % 0x1_0000 * 1024,
          (a: nat) => CsrFields(regs(a + CSR_ADDR), regs(a + CSR_SIZE_GRP)),
          (a: nat) => ((i: int) => ParamFields(regs(a + PARAM_HDR + 8 * i))))
  }

  /** The ranges of the fields that are used as offsets and sizes. */
  lemma FieldRanges(regs: int -> Word, at: nat)
    ensures Decoded(regs).nextAfu(at) < 0x100_0000 && Decoded(regs).dfh(at).next < 0x100_0000
    ensures Decoded(regs).portSize(at) < 0x400_0000
  {
    assert Decoded(regs).nextAfu(at) == regs(at + NEXT_AFU) % 0x100_0000;
    assert Decoded(regs).dfh(at) == DfhFields(regs(at));
    var kib := regs(at + PORT_CAP) / 0x100 % 0x1_0000;
    assert kib < 0x1_0000 && Decoded(regs).portSize(at) == kib * 1024;
  }

  function Bit(b: bool): nat {
    if b then 1 else 0
  }

  /** A header put together from its fields, with anything in the bits 51 to 41, is read back. */
  lemma DfhRead(id: nat, revision: nat, next: Offset, end: bool, unused: nat, version: nat, kind: nat)
    requires id < 0x1000 && revision < 0x10 && unused < 0x800 && version < 0x100 && kind < 0x10
    ensures var v := id + 0x1000 * revision + 0x1_0000 * next + 0x100_0000_0000 * Bit(end)
                     + 0x200_0000_0000 * unused + 0x10_0000_0000_0000 * version + 0x1000_0000_0000_0000 * kind;
            v < U64 && DfhFields(v) == Dfh(id, revision, next, end, version, kind)
  {
    var v := id + 0x1000 * revision + 0x1_0000 * next + 0x100_0000_0000 * Bit(end)
             + 0x200_0000_0000 * unused + 0x10_0000_0000_0000 * version + 0x1000_0000_0000_0000 * kind;
    var d := Bit(end) + 2 * unused + 0x1000 * version + 0x10_0000 * kind;
    DfhLow(id, revision, next, d, v);
    DfhHigh(Bit(end), unused, version, kind, d);
    assert v / 0x100_0000_0000 == d && v / 0x10_0000_0000_0000 == d / 0x1000
           && v / 0x1000_0000_0000_0000 == d / 0x10_0000;
  }

  lemma DfhLow(id: nat, revision: nat, next: Offset, high: nat, v: nat)
    requires id < 0x1000 && revision < 0x10
    requires v == id + 0x1000 * revision + 0x1_0000 * next + 0x100_0000_0000 * high
    ensures v % 0x1000 == id && v / 0x1000 % 0x10 == revision && v / 0x1_0000 % 0x100_0000 == next
    ensures v / 0x100_0000_0000 == high
  {
    assert v / 0x1_0000 == next + 0x100_0000 * high;
    assert v / 0x1000 == revision + 0x10 * (next + 0x100_0000 * high);
  }

  lemma DfhHigh(end: nat, unused: nat, version: nat, kind: nat, d: nat)
    requires end < 2 && unused < 0x800 && version < 0x100
    requires d == end + 2 * unused + 0x1000 * version + 0x10_0000 * kind
    ensures d % 2 == end && d / 0x1000 % 0x100 == version && d / 0x10_0000 == kind
  {
    assert d / 0x1000 == version + 0x100 * kind;
  }

  /** The same for the register block of a version 1 feature. */
  lemma CsrRead(address: nat, absolute: bool, size: nat, hasParams: bool, unused: nat)
    requires address < 0x8000_0000_0000_0000 && size < 0x1_0000_0000 && unused < 0x8000_0000
    ensures var (a, g) := (Bit(absolute) + 2 * address, unused + 0x8000_0000 * Bit(hasParams) + 0x1_0000_0000 * size);
            a < U64 && g < U64 && CsrFields(a, g) == Csr(address, absolute, size, hasParams)
  {
  }

  /** The same for a parameter header, whose version is in the bits 31 to 16. */
  lemma ParamRead(id: nat, version: nat, last: bool, unused: nat, next: nat)
    requires id < 0x1_0000 && version < 0x1_0000 && unused < 4 && next < 0x2000_0000
    ensures var v := id + 0x1_0000 * version + 0x1_0000_0000 * Bit(last) + 0x2_0000_0000 * unused
                     + 0x8_0000_0000 * next;
            v < U64 && ParamFields(v) == Param(id, next, last)
  {
    var v := id + 0x1_0000 * version + 0x1_0000_0000 * Bit(last) + 0x2_0000_0000 * unused + 0x8_0000_0000 * next;
    var high := Bit(last) + 2 * unused + 8 * next;
    ParamLow(id, version, high, v);
    ParamHigh(Bit(last), unused, next, high, v);
  }

  lemma ParamHigh(last: nat, unused: nat, next: nat, high: nat, v: nat)
    requires last < 2 && unused < 4 && high == last + 2 * unused + 8 * next && v / 0x1_0000_0000 == high
    ensures high % 2 == last && v / 0x8_0000_0000 == next
  {
    assert 0 <= v - 0x1_0000_0000 * high < 0x1_0000_0000;
    assert 0 <= v - 0x8_0000_0000 * next < 0x8_0000_0000;
  }

  lemma ParamLow(id: nat, version: nat, high: nat, v: nat)
    requires id < 0x1_0000 && version < 0x1_0000 && v == id + 0x1_0000 * version + 0x1_0000_0000 * high
    ensures v % 0x1_0000 == id && v / 0x1_0000_0000 == high
  {
    assert v == id + 0x1_0000 * (version + 0x1_0000 * high);
  }

  /** The same for the registers of a unit that tell of its child. */
  lemma ChildRead(regs: int -> Word, at: nat, offset: Offset, above: nat, low: nat, size: nat, high: nat)
    requires regs(at + NEXT_AFU) == offset + 0x100_0000 * above
    requires low < 0x100 && size < 0x1_0000 && regs(at + PORT_CAP) == low + 0x100 * size + 0x100_0000 * high
    ensures Decoded(regs).nextAfu(at) == offset && Decoded(regs).portSize(at) == 1024 * size
  {
    assert Decoded(regs).nextAfu(at) == regs(at + NEXT_AFU) % 0x100_0000;
    assert Decoded(regs).portSize(at) == regs(at + PORT_CAP) / 0x100 % 0x1_0000 * 1024;
    assert regs(at + PORT_CAP) / 0x100 == size + 0x1_0000 * high;
  }
}
