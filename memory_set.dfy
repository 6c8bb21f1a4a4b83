/**
  The slice of the address-space collaborator (`MemorySet`, `VirtAddr`,
  `MapPermission`) that the memory-mapping syscalls observe: a page table
  from virtual page number to an optional page-table entry with a valid flag,
  and the list of areas inserted so far.
 */
module MemorySets {
  import opened Wrappers

  const PAGE_SIZE: nat := 0x1000
  /** Addresses are translated under Sv39: a virtual address has 39 bits. */
  const VA_LIMIT: nat := 0x80_0000_0000

  /** `VirtAddr::floor`: the page that contains `va`. */
  function Floor(va: nat): (vpn: nat)
    ensures vpn * PAGE_SIZE <= va < (vpn + 1) * PAGE_SIZE
  {
    va / PAGE_SIZE
  }

  /** `VirtAddr::ceil`: the first page at or above `va`. */
  function Ceil(va: nat): (vpn: nat)
    ensures va <= vpn * PAGE_SIZE < va + PAGE_SIZE
  {
    if va == 0 then 0 else (va - 1 + PAGE_SIZE) / PAGE_SIZE
  }

  /** The check `start & (PAGE_SIZE - 1) != 0`; PAGE_SIZE is a power of two,
      so the masked bits are exactly the remainder by PAGE_SIZE. */
  predicate IsPageAligned(va: nat)
  {
    va % PAGE_SIZE == 0
  }

  /** A request `[start, start + len)` stays inside the Sv39 address space,
      so `VirtAddr::from` does not truncate it. */
  predicate FitsInAddressSpace(start: nat, len: nat)
  {
    start + len < VA_LIMIT
  }

  /** For an aligned start, the page range `[Floor(start), Ceil(start + len))`
      covers every requested byte and less than one page more. */
  lemma PageRangeCoversRequest(start: nat, len: nat)
    requires IsPageAligned(start)
    ensures Floor(start) * PAGE_SIZE == start
    ensures start + len <= Ceil(start + len) * PAGE_SIZE < start + len + PAGE_SIZE
    ensures Floor(start) <= Ceil(start + len)
  {
  }

  // Bits of `MapPermission`; the `V` bit of a page-table entry is not among them.
  const PERM_R: bv8 := 0x02
  const PERM_W: bv8 := 0x04
  const PERM_X: bv8 := 0x08
  const PERM_U: bv8 := 0x10
  /** Every bit `MapPermission::from_bits_truncate` keeps. */
  const PERM_ALL: bv8 := 0x1e

  /** A page-table entry as `translate` reports it. */
  datatype Pte = Pte(valid: bool, perm: bv8)

  /** One inserted framed area: the pages `[startVpn, endVpn)` with a permission. */
  datatype MapArea = MapArea(startVpn: nat, endVpn: nat, perm: bv8)

  type PageTable = map<nat, Pte>

  predicate InArea(area: MapArea, vpn: nat)
  {
    area.startVpn <= vpn < area.endVpn
  }

  /** `translate(vpn)` yields an entry whose valid flag is set. */
  predicate PageValid(pt: PageTable, vpn: nat)
  {
    vpn in pt && pt[vpn].valid
  }

  /** Some page of `[lo, hi)` is validly mapped: what `sys_mmap` refuses. */
  predicate SomePageValid(pt: PageTable, lo: nat, hi: nat)
  {
    exists vpn :: lo <= vpn < hi && PageValid(pt, vpn)
  }

  /** Every page of `[lo, hi)` is validly mapped: what `unmap_the_area` demands. */
  predicate AllPagesValid(pt: PageTable, lo: nat, hi: nat)
  {
    forall vpn :: lo <= vpn < hi ==> PageValid(pt, vpn)
  }

  /** The page table after the pages `[lo, hi)` are mapped with `perm`. */
  function MapRange(pt: PageTable, lo: nat, hi: nat, perm: bv8): (pt': PageTable)
    ensures AllPagesValid(pt', lo, hi)
    ensures forall vpn :: lo <= vpn < hi ==> vpn in pt' && pt'[vpn] == Pte(true, perm)
    ensures forall vpn :: (vpn < lo || hi <= vpn) ==> (vpn in pt' <==> vpn in pt)
    ensures forall vpn :: (vpn < lo || hi <= vpn) && vpn in pt ==> pt'[vpn] == pt[vpn]
    decreases hi - lo
  {
    if hi <= lo then pt else MapRange(pt[lo := Pte(true, perm)], lo + 1, hi, perm)
  }

  /** Every page of every inserted area is validly mapped. */
  ghost predicate AreasMapped(pt: PageTable, areas: seq<MapArea>)
  {
    forall i, vpn :: 0 <= i < |areas| && InArea(areas[i], vpn) ==> PageValid(pt, vpn)
  }

  /** No page belongs to two inserted areas. */
  ghost predicate AreasDisjoint(areas: seq<MapArea>)
  {
    forall i, j, vpn :: 0 <= i < j < |areas| && InArea(areas[i], vpn) ==> !InArea(areas[j], vpn)
  }

  /** The address space invariant: areas are mapped and never overlap. */
  ghost predicate WellFormed(pt: PageTable, areas: seq<MapArea>)
  {
    AreasMapped(pt, areas) && AreasDisjoint(areas)
  }

  /** Inserting an area over pages none of which is validly mapped keeps the
      areas mapped and pairwise disjoint. */
  lemma InsertFreshAreaKeepsWellFormed(pt: PageTable, areas: seq<MapArea>, area: MapArea)
    requires WellFormed(pt, areas)
    requires !SomePageValid(pt, area.startVpn, area.endVpn)
    ensures WellFormed(MapRange(pt, area.startVpn, area.endVpn, area.perm), areas + [area])
  {
    var pt' := MapRange(pt, area.startVpn, area.endVpn, area.perm);
    var areas' := areas + [area];
    forall i, vpn | 0 <= i < |areas'| && InArea(areas'[i], vpn)
      ensures PageValid(pt', vpn)
    {
      if !InArea(area, vpn) {
        assert areas'[i] == areas[i] && InArea(areas[i], vpn);
        assert PageValid(pt, vpn);
      }
    }
    forall i, j, vpn | 0 <= i < j < |areas'| && InArea(areas'[i], vpn)
      ensures !InArea(areas'[j], vpn)
    {
      if j == |areas| {
        assert InArea(areas[i], vpn);
        assert PageValid(pt, vpn);
      } else {
        assert InArea(areas[i], vpn);
      }
    }
  }

  /**
    The memory set of one task, as far as the syscalls see it. The source
    changes it in place, so it is an object whose two fields the
    collaborator operations reassign.
   */
  class MemorySet {
    var pageTable: PageTable
    var areas: seq<MapArea>

    constructor(pageTable: PageTable, areas: seq<MapArea>)
      ensures this.pageTable == pageTable && this.areas == areas
    {
      this.pageTable := pageTable;
      this.areas := areas;
    }

    /** `MemorySet::translate`. */
    function Translate(vpn: nat): (pte: Option<Pte>)
      reads this
      ensures pte.Some? <==> vpn in pageTable
      ensures pte.Some? ==> pte.value == pageTable[vpn]
    {
      if vpn in pageTable then Some(pageTable[vpn]) else None
    }

    /** `MemorySet::insert_framed_area`: records one more area and maps each of
        its pages with fresh frames, leaving every other page as it was. */
    method InsertFramedArea(startVpn: nat, endVpn: nat, perm: bv8)
      modifies this
      ensures areas == old(areas) + [MapArea(startVpn, endVpn, perm)]
      ensures pageTable == MapRange(old(pageTable), startVpn, endVpn, perm)
    {
      areas := areas + [MapArea(startVpn, endVpn, perm)];
      pageTable := MapRange(pageTable, startVpn, endVpn, perm);
    }
  }
}
