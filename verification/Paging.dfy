/**
 Recursive page-table addressing: the last but one slot of the top table maps the tables
 themselves, so that the entry for an address, at any level, has an address of its own.
 */
module Paging {

  /** Where the entries of a level begin. */
  function LevelBase(level: nat): bv64
    requires level < 4
  {
    match level
    case 0 => 0xFFFFFF0000000000
    case 1 => 0xFFFFFF7F80000000
    case 2 => 0xFFFFFF7FBFC00000
    case _ => 0xFFFFFF7FBFDFE000
  }

  /** The address of the entry that maps addr at a level; a level covers 9 bits. */
  function EntryFor(addr: bv64, level: nat): bv64
    requires level < 4
  {
    var a := addr & 0x0000FFFFFFFFFFFF;
    var index := match level
      case 0 => a >> 9
      case 1 => a >> 18
      case 2 => a >> 27
      case _ => a >> 36;
    (index & 0xFFFFFFFFFFFFFFF8) | LevelBase(level)
  }

  function SignExtend(a: bv64): bv64 {
    if a & 0x0000800000000000 != 0 then a | 0xFFFF000000000000 else a & 0x0000FFFFFFFFFFFF
  }

  function ShiftUp(pte: bv64, level: nat): bv64
    requires level < 4
  {
    match level
    case 0 => pte << 9
    case 1 => pte << 18
    case 2 => pte << 27
    case _ => pte << 36
  }

  /** The first address mapped by an entry of a level. */
  function AddrFromEntry(pte: bv64, level: nat): bv64
    requires level < 4
  {
    SignExtend(ShiftUp(pte, level))
  }

  /** Bits 48 and up repeat bit 47. */
  predicate Canonical(addr: bv64) {
    addr & 0xFFFF800000000000 == 0 || addr & 0xFFFF800000000000 == 0xFFFF800000000000
  }

  /** The bits that select what one entry of a level maps: a page of 4 KB, 2 MB, 1 GB or
      512 GB. */
  function PageMask(level: nat): bv64
    requires level < 4
  {
    match level
    case 0 => 0xFFFFFFFFFFFFF000
    case 1 => 0xFFFFFFFFFFE00000
    case 2 => 0xFFFFFFFFC0000000
    case _ => 0xFFFFFF8000000000
  }

  function Cut(addr: bv64, m: bv64): bv64 {
    addr & m
  }

  predicate CutLow(addr: bv64, m: bv64, r: bv64) {
    r & 0x0000FFFFFFFFFFFF == addr & (m & 0x0000FFFFFFFFFFFF)
  }

  /** A mask that keeps the sign bit and everything above it. */
  predicate MaskShape(m: bv64) {
    m | 0xFFFF000000000000 == m && m & 0x0000800000000000 != 0
  }

  function RoundDown(addr: bv64, level: nat): bv64
    requires level < 4
  {
    Cut(addr, PageMask(level))
  }

  /** The low 48 bits of r are those of addr, rounded down. */
  predicate LowAgrees(addr: bv64, level: nat, r: bv64)
    requires level < 4
  {
    CutLow(addr, PageMask(level), r)
  }

  // ----- Sign extension -----

  lemma KeepLow(r: bv64)
    ensures r | 0xFFFF000000000000 == (r & 0x0000FFFFFFFFFFFF) | 0xFFFF000000000000
  {
  }

  lemma Absorb(a: bv64, c: bv64)
    ensures a | (a & c) == a
  {
  }

  lemma Widen(a: bv64)
    ensures (a | 0xFFFF800000000000) | 0xFFFF000000000000 == a | 0xFFFF800000000000
  {
  }

  lemma Distribute(a: bv64, m: bv64)
    ensures (a & (m & 0x0000FFFFFFFFFFFF)) | 0xFFFF000000000000 == (a | 0xFFFF000000000000) & (m | 0xFFFF000000000000)
  {
  }

  lemma SignBit(a: bv64, m: bv64, r: bv64)
    requires r & 0x0000FFFFFFFFFFFF == a & (m & 0x0000FFFFFFFFFFFF) && m & 0x0000800000000000 != 0
    ensures r & 0x0000800000000000 == a & 0x0000800000000000
  {
    assert r & 0x0000800000000000 == (r & 0x0000FFFFFFFFFFFF) & 0x0000800000000000;
    assert m & 0x0000800000000000 == 0x0000800000000000;
    assert (a & (m & 0x0000FFFFFFFFFFFF)) & 0x0000800000000000 == a & (m & 0x0000800000000000);
  }

  /** Sign extension restores a canonical address of which only the low 48 bits, cut off at
      a page boundary, are known. */
  lemma Restore(addr: bv64, m: bv64, r: bv64)
    requires Canonical(addr) && MaskShape(m) && CutLow(addr, m, r)
    ensures SignExtend(r) == Cut(addr, m)
  {
    if addr & 0xFFFF800000000000 == 0 {
      RestoreLow(addr, m, r);
    } else {
      RestoreHigh(addr, m, r);
    }
  }

  lemma RestoreLow(addr: bv64, m: bv64, r: bv64)
    requires addr & 0xFFFF800000000000 == 0 && MaskShape(m) && CutLow(addr, m, r)
    ensures SignExtend(r) == Cut(addr, m)
  {
    SignBit(addr, m, r);
    LowHalf(addr, m);
  }

  lemma RestoreHigh(addr: bv64, m: bv64, r: bv64)
    requires addr & 0xFFFF800000000000 == 0xFFFF800000000000 && MaskShape(m) && CutLow(addr, m, r)
    ensures SignExtend(r) == Cut(addr, m)
  {
    SignBit(addr, m, r);
    HighHalf(addr);
    KeepLow(r);
    Distribute(addr, m);
  }

  lemma LowHalf(a: bv64, m: bv64)
    requires a & 0xFFFF800000000000 == 0
    ensures a & 0x0000800000000000 == 0 && a & (m & 0x0000FFFFFFFFFFFF) == a & m
  {
    assert a & 0x0000800000000000 == (a & 0xFFFF800000000000) & 0x0000800000000000;
    assert a & 0x00007FFFFFFFFFFF == a by {
      assert a == (a & 0xFFFF800000000000) | (a & 0x00007FFFFFFFFFFF);
    }
    assert (a & 0x00007FFFFFFFFFFF) & (m & 0x0000FFFFFFFFFFFF) == (a & 0x00007FFFFFFFFFFF) & m;
  }

  lemma HighHalf(a: bv64)
    requires a & 0xFFFF800000000000 == 0xFFFF800000000000
    ensures a & 0x0000800000000000 != 0 && a | 0xFFFF000000000000 == a
  {
    assert a & 0x0000800000000000 == (a & 0xFFFF800000000000) & 0x0000800000000000;
    Absorb(a, 0xFFFF800000000000);
    Widen(a);
  }

  // ----- The two laws -----

  /** Going to the entry of an address and back rounds the address down to the page. */
  lemma RoundTrip(addr: bv64, level: nat)
    requires Canonical(addr) && level < 4
    ensures AddrFromEntry(EntryFor(addr, level), level) == RoundDown(addr, level)
  {
    hide EntryFor, ShiftUp, SignExtend, RoundDown, Canonical, LowAgrees;
    match level
    case 0 => Low0(addr); RestoreLevel(addr, 0, ShiftUp(EntryFor(addr, 0), 0));
    case 1 => Low1(addr); RestoreLevel(addr, 1, ShiftUp(EntryFor(addr, 1), 1));
    case 2 => Low2(addr); RestoreLevel(addr, 2, ShiftUp(EntryFor(addr, 2), 2));
    case _ => Low3(addr); RestoreLevel(addr, 3, ShiftUp(EntryFor(addr, 3), 3));
  }

  lemma RestoreLevel(addr: bv64, level: nat, r: bv64)
    requires level < 4 && Canonical(addr) && LowAgrees(addr, level, r)
    ensures SignExtend(r) == RoundDown(addr, level)
  {
    hide SignExtend, Canonical, Cut, CutLow, MaskShape, PageMask;
    MaskOk(level);
    Restore(addr, PageMask(level), r);
  }

  lemma MaskOk(level: nat)
    requires level < 4
    ensures MaskShape(PageMask(level))
  {
  }

  lemma Low0(addr: bv64)
    ensures LowAgrees(addr, 0, ShiftUp(EntryFor(addr, 0), 0))
  {
  }

  lemma Low1(addr: bv64)
    ensures LowAgrees(addr, 1, ShiftUp(EntryFor(addr, 1), 1))
  {
  }

  lemma Low2(addr: bv64)
    ensures LowAgrees(addr, 2, ShiftUp(EntryFor(addr, 2), 2))
  {
  }

  lemma Low3(addr: bv64)
    ensures LowAgrees(addr, 3, ShiftUp(EntryFor(addr, 3), 3))
  {
  }

  /** The slot of an address in its table of level i; slot 0 of an address is in the lowest
      table. */
  function SlotOf(addr: bv64, i: nat): bv64
    requires i < 4
  {
    match i
    case 0 => (addr >> 12) & 511
    case 1 => (addr >> 21) & 511
    case 2 => (addr >> 30) & 511
    case _ => (addr >> 39) & 511
  }

  /** Looking up the entry of a level goes through slot 510 once for the top table and once
      for each level, then down the tables of the address, and ends at its slot of eight
      bytes. */
  lemma EntrySlots(addr: bv64, level: nat, i: nat)
    requires level < 4 && i < 4
    ensures SlotOf(EntryFor(addr, level), i) == if i + level < 3 then SlotOf(addr, i + level + 1) else 510
    ensures EntryFor(addr, level) & 0xFFF == 8 * SlotOf(addr, level)
    ensures Canonical(EntryFor(addr, level))
  {
    match level
    case 0 => Slots0(addr);
    case 1 => Slots1(addr);
    case 2 => Slots2(addr);
    case _ => Slots3(addr);
  }

  lemma Slots0(addr: bv64)
    ensures var e := EntryFor(addr, 0);
            && SlotOf(e, 3) == 510 && SlotOf(e, 2) == SlotOf(addr, 3) && SlotOf(e, 1) == SlotOf(addr, 2) && SlotOf(e, 0) == SlotOf(addr, 1)
            && e & 0xFFF == 8 * SlotOf(addr, 0) && Canonical(e)
  {
  }

  lemma Slots1(addr: bv64)
    ensures var e := EntryFor(addr, 1);
            && SlotOf(e, 3) == SlotOf(e, 2) == 510 && SlotOf(e, 1) == SlotOf(addr, 3) && SlotOf(e, 0) == SlotOf(addr, 2)
            && e & 0xFFF == 8 * SlotOf(addr, 1) && Canonical(e)
  {
  }

  lemma Slots2(addr: bv64)
    ensures var e := EntryFor(addr, 2);
            && SlotOf(e, 3) == SlotOf(e, 2) == SlotOf(e, 1) == 510 && SlotOf(e, 0) == SlotOf(addr, 3)
            && e & 0xFFF == 8 * SlotOf(addr, 2) && Canonical(e)
  {
  }

  lemma Slots3(addr: bv64)
    ensures var e := EntryFor(addr, 3);
            && SlotOf(e, 3) == SlotOf(e, 2) == SlotOf(e, 1) == SlotOf(e, 0) == 510
            && e & 0xFFF == 8 * SlotOf(addr, 3) && Canonical(e)
  {
  }

  /** The entry that maps an entry is the entry one level up: the tables are reached through
      themselves. */
  lemma EntryOfEntry(addr: bv64, level: nat)
    requires level + 1 < 4
    ensures EntryFor(EntryFor(addr, level), 0) == EntryFor(addr, level + 1)
  {
    match level
    case 0 => Up0(addr);
    case 1 => Up1(addr);
    case _ => Up2(addr);
  }

  lemma Up0(addr: bv64)
    ensures EntryFor(EntryFor(addr, 0), 0) == EntryFor(addr, 1)
  {
  }

  lemma Up1(addr: bv64)
    ensures EntryFor(EntryFor(addr, 1), 0) == EntryFor(addr, 2)
  {
  }

  lemma Up2(addr: bv64)
    ensures EntryFor(EntryFor(addr, 2), 0) == EntryFor(addr, 3)
  {
  }
}
