/** sysinit.S: the translation table of the early boot, its control register, and the walk the
    processor makes through them (Arm Architecture Reference Manual DDI 0487, section D5.3.1). */
module MmuTable {
  import opened Word

  const ENTRIES: nat := 2048
  const BLOCK: nat := 0x2000_0000
  const GIB: nat := 0x4000_0000

  /** MAIR_EL2: attribute 1 is cacheable memory, attribute 0 is device memory. */
  const MAIR: nat := 0xFF00
  const DEVICE: nat := 0x00
  const CACHEABLE: nat := 0xFF
  const NON_SHAREABLE: nat := 0

  // ----- the walk

  datatype Translation = Fault | Mapped(address: nat, memory: nat, shareability: nat)

  /** The field of a word that counts from 0 to size - 1 and whose lowest bit weighs `unit`. */
  function Field(word: nat, unit: nat, size: nat): (f: nat)
    requires unit > 0 && size > 0
    ensures f < size
  {
    word / unit % size
  }

  /** The bytes a physical address size in TCR_EL2.PS spans. */
  function OutputSize(ps: nat): nat {
    if ps == 0 then 0x1_0000_0000
    else if ps == 1 then 0x10_0000_0000
    else if ps == 2 then 0x100_0000_0000
    else if ps == 3 then 0x400_0000_0000
    else if ps == 4 then 0x1000_0000_0000
    else 0x1_0000_0000_0000
  }

  /** One of the eight bytes of MAIR_EL2. */
  function Memory(mair: nat, index: nat): nat
    requires index < 8
  {
    Field(mair, if index == 0 then 1 else if index == 1 then 0x100 else Pow2(8 * index), 256)
  }

  function T0sz(tcr: bv64): nat { (tcr & 0x3F) as nat }

  function Granule(tcr: bv64): nat { ((tcr >> 14) & 3) as nat }

  function PhysicalSize(tcr: bv64): nat { ((tcr >> 16) & 7) as nat }

  /** The translation of an input address.  With 64 KiB granules and T0SZ from 22 to 34 the walk
      starts at level 2, where an entry covers 512 MiB; other walks, next-level tables and what
      lies behind the table are no part of the early map and count as faults here. */
  function Walk(table: seq<nat>, tcr: bv64, mair: nat, ia: nat): Translation {
    if T0sz(tcr) == 0 || ia >= Pow2(64 - T0sz(tcr)) then Fault
    else if Granule(tcr) != 1 || T0sz(tcr) < 22 || T0sz(tcr) > 34 || ia / BLOCK >= |table| then Fault
    else
      var d := table[ia / BLOCK];
      var address := Field(d, BLOCK, 0x8_0000) * BLOCK + ia % BLOCK;
      if d % 4 != 1 || Field(d, 0x400, 2) == 0 || address >= OutputSize(PhysicalSize(tcr)) then Fault
      else Mapped(address, Memory(mair, Field(d, 4, 8)), Field(d, 0x100, 4))
  }

  // ----- what the boot code writes

  /** The block descriptor of entry k. */
  function Descriptor(k: nat): nat {
    k * BLOCK + (if k < 2 then 0x405 else 0x401)
  }

  predicate IsEarlyTable(table: seq<nat>) {
    |table| == ENTRIES && forall k :: 0 <= k < ENTRIES ==> table[k] == Descriptor(k)
  }

  method SetupEarlyMmuTables(table: array<nat>)
    requires table.Length == ENTRIES
    modifies table
    ensures IsEarlyTable(table[..])
  {
    var x1 := 0x405;
    table[0] := x1;
    x1 := OrBlock(x1, 1);
    table[1] := x1;
    var x3 := 2;
    while x3 != ENTRIES
      invariant 2 <= x3 <= ENTRIES
      invariant forall k :: 0 <= k < x3 ==> table[k] == Descriptor(k)
      decreases ENTRIES - x3
    {
      x1 := OrBlock(0x401, x3);
      table[x3] := x1;
      x3 := x3 + 1;
    }
  }

  /** `orr x1, x1, k << 29`. */
  method OrBlock(x1: nat, k: nat) returns (r: nat)
    requires x1 < BLOCK && k < ENTRIES
    ensures r == k * BLOCK + x1
  {
    var x2 := (k * BLOCK) % WORD;
    Fits(k * BLOCK);
    r := Or(x1, x2);
    OrWithBlock(x1, k);
  }

  lemma OrWithBlock(x1: nat, k: nat)
    requires x1 < BLOCK
    ensures Or(x1, k * BLOCK) == k * BLOCK + x1
  {
    assert Pow2(29) == BLOCK by { Pow2Values(); }
    OrDisjoint(x1, k, 29);
  }

  /** The register update of setup_early_mmu, on whatever the register held. */
  method EarlyTcr(was: bv64) returns (tcr: bv64)
    ensures tcr == TcrAfter(was)
  {
    tcr := was;
    tcr := tcr & !0x1F;
    tcr := tcr & !0x7C000;
    tcr := tcr | 0x18;
    var x1: bv64 := 0x24;
    tcr := tcr | (x1 << 12);
  }

  /** TCR_EL2 with bits 18 to 14 and 4 to 0 replaced, all others kept. */
  function TcrAfter(was: bv64): bv64 {
    (was & 0xFFFF_FFFF_FFF8_3FE0) | 0x2_4018
  }

  /** The granule and the address size are always set; T0SZ is 24 only if bit 5, which the code
      does not clear, was clear already. */
  lemma TcrFields(was: bv64)
    ensures Granule(TcrAfter(was)) == 1 && PhysicalSize(TcrAfter(was)) == 2
    ensures T0sz(TcrAfter(was)) == if was & 0x20 == 0 then 24 else 56
  {
    var tcr := TcrAfter(was);
    assert (tcr >> 14) & 3 == 1;
    assert (tcr >> 16) & 7 == 2;
    assert tcr & 0x3F == if was & 0x20 == 0 then 24 else 56;
  }

  /** No other bit of the register changes. */
  lemma TcrKeepsRest(was: bv64)
    ensures TcrAfter(was) & !(0x7_C000 | 0x1F) == was & !(0x7_C000 | 0x1F)
  {
  }

  // ----- the map is flat

  /** The fields of a descriptor. */
  lemma DescriptorFields(k: nat)
    requires k < ENTRIES
    ensures Descriptor(k) % 4 == 1 && Field(Descriptor(k), 0x400, 2) == 1
    ensures Field(Descriptor(k), BLOCK, 0x8_0000) == k
    ensures Field(Descriptor(k), 4, 8) == if k < 2 then 1 else 0
    ensures Field(Descriptor(k), 0x100, 4) == NON_SHAREABLE
  {
    var d, attr := Descriptor(k), if k < 2 then 1 else 0;
    FieldIs(d, 1, 4, k * 0x800_0000 + 0x100 + attr, 1, 0);
    FieldIs(d, 0x400, 2, k * 0x4_0000, 1, 4 * attr + 1);
    FieldIs(d, BLOCK, 0x8_0000, 0, k, 0x401 + 4 * attr);
    FieldIs(d, 4, 8, k * 0x100_0000 + 0x20, attr, 1);
    FieldIs(d, 0x100, 4, k * 0x8_0000 + 1, 0, 4 * attr + 1);
  }

  /** The other fields are zero: accessible at every privilege that has access, secure, global, no
      reserved bits, and executable. */
  lemma DescriptorRest(k: nat)
    requires k < ENTRIES
    ensures Field(Descriptor(k), 0x20, 8) == 0 && Field(Descriptor(k), 0x800, 0x4_0000) == 0
    ensures Descriptor(k) < ADDRESS_SPACE
  {
    var d, attr := Descriptor(k), if k < 2 then 1 else 0;
    FieldIs(d, 0x20, 8, k * 0x20_0000 + 4, 0, 4 * attr + 1);
    FieldIs(d, 0x800, 0x4_0000, k, 0, 0x401 + 4 * attr);
    MulMonotone(k, ENTRIES - 1, BLOCK);
  }

  lemma FieldIs(d: nat, unit: nat, size: nat, high: nat, f: nat, low: nat)
    requires low < unit && f < size && d == (high * size + f) * unit + low
    ensures Field(d, unit, size) == f
  {
    ModUnique(d, unit, high * size + f, low);
    ModUnique(high * size + f, size, high, f);
  }

  /** What the early map is to do with an address: the identity below 2^40, cacheable in the
      first GiB and device memory above, faults elsewhere. */
  function Flat(ia: nat): Translation {
    if ia < ADDRESS_SPACE then Mapped(ia, if ia < GIB then CACHEABLE else DEVICE, NON_SHAREABLE) else Fault
  }

  lemma AddressParts(ia: nat)
    requires ia < ADDRESS_SPACE
    ensures ia / BLOCK < ENTRIES && (ia / BLOCK) * BLOCK + ia % BLOCK == ia
    ensures ia / BLOCK < 2 <==> ia < GIB
  {
  }

  lemma MemoryTypes()
    ensures Memory(MAIR, 0) == DEVICE && Memory(MAIR, 1) == CACHEABLE
  {
  }

  lemma WalkIsFlat(table: seq<nat>, was: bv64, ia: nat)
    requires IsEarlyTable(table) && was & 0x20 == 0
    ensures Walk(table, TcrAfter(was), MAIR, ia) == Flat(ia)
  {
    TcrFields(was);
    assert Pow2(40) == ADDRESS_SPACE by { Pow2Values(); }
    if ia < ADDRESS_SPACE {
      AddressParts(ia);
      DescriptorFields(ia / BLOCK);
      MemoryTypes();
    }
  }

  /** The built table maps every 40-bit address to itself, and nothing else, exactly when bit 5
      of the control register was clear before; otherwise the region shrinks to 256 bytes. */
  lemma EarlyMapIsFlat(table: seq<nat>, was: bv64)
    requires IsEarlyTable(table)
    ensures was & 0x20 == 0 <==> forall ia: nat :: Walk(table, TcrAfter(was), MAIR, ia) == Flat(ia)
  {
    if was & 0x20 == 0 {
      forall ia: nat ensures Walk(table, TcrAfter(was), MAIR, ia) == Flat(ia) {
        WalkIsFlat(table, was, ia);
      }
    } else {
      TcrFields(was);
      assert Pow2(8) == 256 by { Pow2Values(); }
      assert Walk(table, TcrAfter(was), MAIR, 256) == Fault != Flat(256);
    }
  }
}
