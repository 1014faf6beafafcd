/**
 * Two-level IA-32 page tables (kernel/vm.c), as in section 4.3 of the Intel
 * 64 and IA-32 Architectures Software Developer's Manual, Volume 3A
 * (32-bit paging with 4 KiB pages).
 *
 * A virtual address enters the page tables only through its page number
 * va / PGSIZE: PDX and PTX are its upper and lower ten bits. The functions
 * below therefore take virtual page numbers, and their loops step from page
 * to page where the source adds PGSIZE to an address.
 *
 * A page directory is a value: the page tables it names, keyed by directory
 * index. A key is present exactly when its directory entry has PTE_P set.
 * Page-table entries are 32-bit words, so the bits a caller ORs into an entry
 * are kept exactly as the hardware would see them. Physical pages are named
 * by their physical address; kalloc and kfree work on a free list.
 */
module Vm {
  import opened Wrappers

  const PGSIZE: nat := 4096
  const NPTENTRIES: nat := 1024
  const NPDENTRIES: nat := 1024
  /** First kernel virtual address; user memory lies below it. */
  const KERNBASE: nat := 0x8000_0000
  /** Size of the 32-bit virtual address space. */
  const ADDR_LIMIT: nat := 0x1_0000_0000

  const PTE_P: bv32 := 1
  const PTE_W: bv32 := 2
  const PTE_U: bv32 := 4

  type Pte = bv32

  /** The pages that sz bytes from address 0 occupy: PGROUNDUP(sz) / PGSIZE. */
  function Pages(sz: nat): nat { (sz + PGSIZE - 1) / PGSIZE }
  /** Page-directory index of virtual page n (PDX). */
  function Pdx(n: nat): nat { n / NPTENTRIES }
  /** Page-table index of virtual page n (PTX). */
  function Ptx(n: nat): nat { n % NPTENTRIES }

  /** An aligned address a lies below sz exactly when its page is one of the first Pages(sz). */
  lemma PagesBound(n: nat, sz: nat)
    ensures n * PGSIZE < sz <==> n < Pages(sz)
  {
    if n < Pages(sz) {
      assert (n + 1) * PGSIZE <= sz + PGSIZE - 1;
    } else {
      assert Pages(sz) * PGSIZE <= n * PGSIZE;
      assert sz + PGSIZE - 1 < (Pages(sz) + 1) * PGSIZE;
    }
  }

  /** Pages grows with the size. */
  lemma PagesMono(a: nat, b: nat)
    requires a <= b
    ensures Pages(a) <= Pages(b)
  {
  }

  predicate Present(e: Pte) { e & PTE_P != 0 }
  predicate UserAccessible(e: Pte) { e & PTE_U != 0 }
  /** The physical page an entry names (PTE_ADDR). */
  function PteAddr(e: Pte): bv32 { e & 0xFFFF_F000 }
  /** The permission and status bits of an entry (PTE_FLAGS). */
  function PteFlags(e: Pte): bv32 { e & 0xFFF }
  predicate PageAligned(pa: bv32) { pa & 0xFFF == 0 }

  /**
   * A page table: the directory entry naming it and its entries, indexed by
   * PTX; an index without a key holds the zero entry.
   */
  datatype Table = Table(pde: bv32, ptes: map<nat, Pte>)
  datatype PageDir = PageDir(tables: map<nat, Table>)

  /** A freshly zeroed page table. */
  function EmptyTable(): map<nat, Pte> { map[] }

  function Entry(t: Table, i: nat): Pte
  {
    if i in t.ptes then t.ptes[i] else 0
  }

  /** The entry for page n, or None when its page table is absent. */
  function Lookup(pd: PageDir, n: nat): Option<Pte>
  {
    if Pdx(n) in pd.tables then Some(Entry(pd.tables[Pdx(n)], Ptx(n))) else None
  }

  /** The translation of page n: its entry when that entry is present. */
  function Mapping(pd: PageDir, n: nat): Option<Pte>
  {
    var e := Lookup(pd, n);
    if e.Some? && Present(e.value) then e else None
  }

  /** Writes entry e for page n (the `*pte = e` of the source). */
  function SetPte(pd: PageDir, n: nat, e: Pte): (r: PageDir)
    requires Pdx(n) in pd.tables
    ensures r.tables.Keys == pd.tables.Keys
    ensures Lookup(r, n) == Some(e)
  {
    var t := pd.tables[Pdx(n)];
    PageDir(pd.tables[Pdx(n) := Table(t.pde, t.ptes[Ptx(n) := e])])
  }

  /** Distinct pages have distinct entries. */
  lemma SameEntrySamePage(u: nat, v: nat)
    requires Pdx(u) == Pdx(v) && Ptx(u) == Ptx(v)
    ensures u == v
  {
    assert u == Pdx(u) * NPTENTRIES + Ptx(u);
    assert v == Pdx(v) * NPTENTRIES + Ptx(v);
  }

  /** Writing the entry of page n leaves the entry of every other page as it was. */
  lemma SetPteOther(pd: PageDir, n: nat, e: Pte, m: nat)
    requires Pdx(n) in pd.tables && m != n
    ensures Lookup(SetPte(pd, n, e), m) == Lookup(pd, m)
    ensures Mapping(SetPte(pd, n, e), m) == Mapping(pd, m)
  {
    if Pdx(m) == Pdx(n) && Ptx(m) == Ptx(n) {
      SameEntrySamePage(m, n);
    }
  }

  // ---------------------------------------------------------------------
  // The physical page pool (kalloc/kfree).

  /**
   * kalloc's free list, most recently freed page first: kalloc takes the
   * head and fails only when the list is empty; kfree pushes a page on the
   * front.
   */
  type FreeList = seq<bv32>

  function Kfree(free: FreeList, pa: bv32): FreeList
  {
    [pa] + free
  }

  /** after is before with pages pushed on its front. */
  predicate Returned(before: FreeList, after: FreeList)
  {
    |after| >= |before| && after[|after| - |before|..] == before
  }

  /** Freeing pages one after another only ever returns pages. */
  lemma ReturnedKfree(a: FreeList, pa: bv32, c: FreeList)
    requires Returned(Kfree(a, pa), c)
    ensures Returned(a, c)
  {
    var b := Kfree(a, pa);
    assert c[|c| - |a|..] == c[|c| - |b|..][1..];
  }

  /** Returning pages in two stages returns pages. */
  lemma ReturnedTrans(a: FreeList, b: FreeList, c: FreeList)
    requires Returned(a, b) && Returned(b, c)
    ensures Returned(a, c)
  {
    var k := |c| - |b|;
    assert c[|c| - |a|..] == c[k..][|b| - |a|..];
  }

  /** A physical page, named by its address. */
  datatype Frame = Frame(addr: bv32)

  /** The bytes of one physical page. */
  type Page = s: seq<bv8> | |s| == PGSIZE witness seq(PGSIZE, _ => 0)

  /**
   * Physical memory: the free list and the contents of the pages written so
   * far; a page never written reads as zeros.
   */
  datatype Phys = Phys(free: FreeList, data: map<Frame, Page>)

  function ZeroPage(): Page { seq(PGSIZE, _ => 0) }

  /** The bytes of physical page pa. */
  function Contents(ph: Phys, pa: bv32): Page
  {
    if Frame(pa) in ph.data then ph.data[Frame(pa)] else ZeroPage()
  }

  // ---------------------------------------------------------------------
  // walkpgdir

  /** Where walkpgdir's returned pointer points: entry idx of table dir. */
  datatype PteRef = PteRef(dir: nat, idx: nat)
  datatype Walked = Walked(pd: PageDir, free: FreeList, pte: Option<PteRef>)

  /**
   * walkpgdir (kernel/vm.c:37-68): the entry PTX of the table that directory
   * entry PDX names; with alloc set, an absent table is replaced by a zeroed
   * page from the free list, named with PTE_P|PTE_W|PTE_U.
   */
  function WalkPgDir(pd: PageDir, free: FreeList, n: nat, alloc: bool): (w: Walked)
    ensures w.pte.Some? ==> w.pte.value == PteRef(Pdx(n), Ptx(n)) && Pdx(n) in w.pd.tables
    ensures w.pte.None? <==> Pdx(n) !in pd.tables && (!alloc || free == [])
    ensures w.pte.None? ==> w.pd == pd && w.free == free
  {
    if Pdx(n) in pd.tables then
      Walked(pd, free, Some(PteRef(Pdx(n), Ptx(n))))
    else if !alloc || free == [] then
      Walked(pd, free, None)
    else
      var pgtab := free[0];
      var pd' := PageDir(pd.tables[Pdx(n) := Table(pgtab | PTE_P | PTE_W | PTE_U, EmptyTable())]);
      Walked(pd', free[1..], Some(PteRef(Pdx(n), Ptx(n))))
  }

  /** walkpgdir changes no translation: a table it adds holds only absent entries. */
  lemma WalkKeepsMappings(pd: PageDir, free: FreeList, n: nat, alloc: bool, m: nat)
    ensures Mapping(WalkPgDir(pd, free, n, alloc).pd, m) == Mapping(pd, m)
  {
    var w := WalkPgDir(pd, free, n, alloc);
    if Pdx(m) == Pdx(n) && w.pd != pd {
      assert Lookup(w.pd, m) == Some(0);
    }
  }

  // ---------------------------------------------------------------------
  // mappages

  datatype MapStatus = Mapped | NoMemory | Remap
  /** Outcome of mappages: 0 (Mapped), -1 (NoMemory) or panic("remap"). */
  datatype MapResult = MapResult(status: MapStatus, pd: PageDir, free: FreeList)

  /** One iteration of the loop of mappages, for page n (kernel/vm.c:88-92). */
  function MapStep(pd: PageDir, free: FreeList, n: nat, pa: bv32, perm: bv32): (r: MapResult)
  {
    var w := WalkPgDir(pd, free, n, true);
    if w.pte.None? then MapResult(NoMemory, w.pd, w.free)
    else if Present(Lookup(w.pd, n).value) then MapResult(Remap, w.pd, w.free)
    else MapResult(Mapped, SetPte(w.pd, n, pa | perm | PTE_P), w.free)
  }

  /** The loop of mappages from page n through page last, page n going to pa. */
  function MapFrom(pd: PageDir, free: FreeList, n: nat, last: nat, pa: bv32, perm: bv32): (r: MapResult)
    requires n <= last
    decreases last - n
  {
    var r := MapStep(pd, free, n, pa, perm);
    if r.status != Mapped || n == last then r
    else MapFrom(r.pd, r.free, n + 1, last, pa + 0x1000, perm)
  }

  /**
   * The physical address mappages gives the k-th page of its range: pa
   * advanced by k pages, in 32-bit arithmetic like the source's uint.
   */
  function FrameAt(pa: bv32, k: nat): bv32
    decreases k
  {
    if k == 0 then pa else FrameAt(pa + 0x1000, k - 1)
  }

  /** One step of mappages changes the translation of page n alone. */
  lemma MapStepFrame(pd: PageDir, free: FreeList, n: nat, pa: bv32, perm: bv32, m: nat)
    requires m != n
    ensures Mapping(MapStep(pd, free, n, pa, perm).pd, m) == Mapping(pd, m)
  {
    var w := WalkPgDir(pd, free, n, true);
    WalkKeepsMappings(pd, free, n, true, m);
    if w.pte.Some? && !Present(Lookup(w.pd, n).value) {
      SetPteOther(w.pd, n, pa | perm | PTE_P, m);
    }
  }

  /** A step of mappages drops no page table. */
  lemma MapStepTables(pd: PageDir, free: FreeList, n: nat, pa: bv32, perm: bv32)
    ensures pd.tables.Keys <= MapStep(pd, free, n, pa, perm).pd.tables.Keys
  {
  }

  /** A successful step of mappages makes page n translate to pa with perm|PTE_P. */
  lemma MapStepMaps(pd: PageDir, free: FreeList, n: nat, pa: bv32, perm: bv32)
    requires MapStep(pd, free, n, pa, perm).status == Mapped
    ensures Mapping(MapStep(pd, free, n, pa, perm).pd, n) == Some(pa | perm | PTE_P)
  {
    var e := pa | perm | PTE_P;
    assert Present(e) by { assert e & PTE_P == PTE_P; }
  }

  /**
   * One step of mappages: it panics exactly when the page is already mapped,
   * fails exactly when a page table is needed and the pool is empty, and in
   * both cases changes nothing; otherwise it takes at most one page from the
   * pool (for a new page table).
   */
  lemma MapStepSummary(pd: PageDir, free: FreeList, n: nat, pa: bv32, perm: bv32)
    ensures MapStep(pd, free, n, pa, perm).status == Remap <==> Mapping(pd, n).Some?
    ensures MapStep(pd, free, n, pa, perm).status == NoMemory <==> Pdx(n) !in pd.tables && free == []
    ensures MapStep(pd, free, n, pa, perm).status != Mapped ==>
      MapStep(pd, free, n, pa, perm).pd == pd && MapStep(pd, free, n, pa, perm).free == free
    ensures MapStep(pd, free, n, pa, perm).free == free ||
      (free != [] && MapStep(pd, free, n, pa, perm).free == free[1..])
  {
    WalkKeepsMappings(pd, free, n, true, n);
  }

  /** mappages leaves every page outside [n, last] as it was. */
  lemma {:induction false} MapFromFrame(pd: PageDir, free: FreeList, n: nat, last: nat, pa: bv32, perm: bv32, m: nat)
    requires n <= last && (m < n || last < m)
    ensures Mapping(MapFrom(pd, free, n, last, pa, perm).pd, m) == Mapping(pd, m)
    decreases last - n
  {
    var r := MapStep(pd, free, n, pa, perm);
    MapStepFrame(pd, free, n, pa, perm, m);
    if r.status == Mapped && n != last {
      MapFromFrame(r.pd, r.free, n + 1, last, pa + 0x1000, perm, m);
    }
  }

  /** When mappages returns 0, the first page of its range translates to pa with perm|PTE_P. */
  lemma MapFromMapsFirst(pd: PageDir, free: FreeList, n: nat, last: nat, pa: bv32, perm: bv32)
    requires n <= last
    requires MapFrom(pd, free, n, last, pa, perm).status == Mapped
    ensures Mapping(MapFrom(pd, free, n, last, pa, perm).pd, n) == Some(pa | perm | PTE_P)
  {
    var r := MapStep(pd, free, n, pa, perm);
    MapStepMaps(pd, free, n, pa, perm);
    if n != last {
      MapFromFrame(r.pd, r.free, n + 1, last, pa + 0x1000, perm, n);
    }
  }

  /**
   * When mappages returns 0, page n+k of its range translates to the k-th
   * consecutive physical page from pa, with perm|PTE_P.
   */
  lemma {:induction false} MapFromMaps(pd: PageDir, free: FreeList, n: nat, last: nat, pa: bv32, perm: bv32, m: nat)
    requires n <= m <= last
    requires MapFrom(pd, free, n, last, pa, perm).status == Mapped
    ensures Mapping(MapFrom(pd, free, n, last, pa, perm).pd, m) == Some(FrameAt(pa, m - n) | perm | PTE_P)
    decreases last - n
  {
    if m == n {
      MapFromMapsFirst(pd, free, n, last, pa, perm);
    } else {
      var r := MapStep(pd, free, n, pa, perm);
      assert MapFrom(pd, free, n, last, pa, perm) == MapFrom(r.pd, r.free, n + 1, last, pa + 0x1000, perm);
      MapFromMaps(r.pd, r.free, n + 1, last, pa + 0x1000, perm, m);
      assert FrameAt(pa, m - n) == FrameAt(pa + 0x1000, m - (n + 1));
    }
  }

  /** mappages panics with "remap" only when some page of the range is already mapped. */
  lemma {:induction false} MapFromRemap(pd: PageDir, free: FreeList, n: nat, last: nat, pa: bv32, perm: bv32)
    requires n <= last
    requires MapFrom(pd, free, n, last, pa, perm).status == Remap
    ensures exists m :: n <= m <= last && Mapping(pd, m).Some?
    decreases last - n
  {
    var r := MapStep(pd, free, n, pa, perm);
    if r.status == Remap {
      MapStepSummary(pd, free, n, pa, perm);
      assert n <= n <= last && Mapping(pd, n).Some?;
    } else {
      MapFromRemap(r.pd, r.free, n + 1, last, pa + 0x1000, perm);
      var m :| n + 1 <= m <= last && Mapping(r.pd, m).Some?;
      MapStepFrame(pd, free, n, pa, perm, m);
      assert n <= m <= last && Mapping(pd, m).Some?;
    }
  }

  /** mappages fails with -1 only once the page pool is exhausted. */
  lemma {:induction false} MapFromNoMemory(pd: PageDir, free: FreeList, n: nat, last: nat, pa: bv32, perm: bv32)
    requires n <= last
    requires MapFrom(pd, free, n, last, pa, perm).status == NoMemory
    ensures MapFrom(pd, free, n, last, pa, perm).free == []
    decreases last - n
  {
    var r := MapStep(pd, free, n, pa, perm);
    MapStepSummary(pd, free, n, pa, perm);
    if r.status == Mapped && n != last {
      MapFromNoMemory(r.pd, r.free, n + 1, last, pa + 0x1000, perm);
    }
  }

  /**
   * mappages (kernel/vm.c:73-101): maps the pages from PGROUNDDOWN(va)
   * through PGROUNDDOWN(va+size-1), that is the page numbers va / PGSIZE
   * through (va+size-1) / PGSIZE, to consecutive physical pages from pa.
   */
  method MapPages(pd: PageDir, free: FreeList, va: nat, size: nat, pa: bv32, perm: bv32) returns (r: MapResult)
    requires 0 < size && va + size <= ADDR_LIMIT
    ensures r == MapFrom(pd, free, va / PGSIZE, (va + size - 1) / PGSIZE, pa, perm)
  {
    var n := va / PGSIZE;
    var last := (va + size - 1) / PGSIZE;
    var dir, pool, p := pd, free, pa;
    ghost var spec := MapFrom(pd, free, n, last, pa, perm);
    while true
      invariant n <= last
      invariant MapFrom(dir, pool, n, last, p, perm) == spec
      decreases last - n
    {
      var w := WalkPgDir(dir, pool, n, true);
      if w.pte.None? {
        return MapResult(NoMemory, w.pd, w.free);
      }
      if Present(Lookup(w.pd, n).value) {
        return MapResult(Remap, w.pd, w.free);
      }
      if n == last {
        return MapResult(Mapped, SetPte(w.pd, n, p | perm | PTE_P), w.free);
      }
      dir, pool := SetPte(w.pd, n, p | perm | PTE_P), w.free;
      n, p := n + 1, p + 0x1000;
    }
  }

  /** mappages on the PGSIZE bytes of page n is one step of its loop. */
  lemma MapPagesOnePage(pd: PageDir, free: FreeList, n: nat, pa: bv32, perm: bv32)
    ensures (n * PGSIZE) / PGSIZE == n && (n * PGSIZE + PGSIZE - 1) / PGSIZE == n
    ensures MapFrom(pd, free, n, n, pa, perm) == MapStep(pd, free, n, pa, perm)
  {
  }

  // ---------------------------------------------------------------------
  // deallocuvm and freevm

  /** A page directory and the free list after an operation on both. */
  datatype Space = Space(pd: PageDir, free: FreeList)

  /** The first page of the next page table's range: page PGADDR(PDX(a)+1, 0, 0) / PGSIZE. */
  function NextTable(n: nat): nat { (Pdx(n) + 1) * NPTENTRIES }

  /** The pages from n up to NextTable(n) share n's page table. */
  lemma NextTableFacts(n: nat, m: nat)
    ensures n < NextTable(n)
    ensures n <= m < NextTable(n) ==> Pdx(m) == Pdx(n)
  {
  }

  /**
   * NullFree: every present entry names a non-null page, so deallocuvm's
   * panic("kfree") is unreachable.
   */
  predicate NullFree(pd: PageDir)
  {
    forall x, i :: x in pd.tables && i in pd.tables[x].ptes && Present(pd.tables[x].ptes[i]) ==>
      PteAddr(pd.tables[x].ptes[i]) != 0
  }

  /**
   * The loop of deallocuvm (kernel/vm.c:289-302) from page n up to page hi:
   * a missing page table skips to the next table's range, a present entry
   * has its page freed and is cleared. None stands for panic("kfree").
   */
  function DeallocFrom(pd: PageDir, free: FreeList, n: nat, hi: nat): (r: Option<Space>)
    ensures r.Some? ==> Returned(free, r.value.free)
    decreases hi - n
  {
    if n >= hi then Some(Space(pd, free))
    else if Pdx(n) !in pd.tables then
      NextTableFacts(n, n);
      DeallocFrom(pd, free, NextTable(n), hi)
    else
      var e := Lookup(pd, n).value;
      if !Present(e) then DeallocFrom(pd, free, n + 1, hi)
      else if PteAddr(e) == 0 then None
      else
        var r := DeallocFrom(SetPte(pd, n, 0), Kfree(free, PteAddr(e)), n + 1, hi);
        if r.Some? then ReturnedKfree(free, PteAddr(e), r.value.free); r else r
  }

  /**
   * deallocuvm as a whole: with newsz >= oldsz nothing changes, otherwise
   * its loop runs over the pages from PGROUNDUP(newsz) below oldsz.
   */
  function DeallocUvmSpec(pd: PageDir, free: FreeList, oldsz: nat, newsz: nat): Option<Space>
  {
    if newsz >= oldsz then Some(Space(pd, free))
    else DeallocFrom(pd, free, Pages(newsz), Pages(oldsz))
  }

  /** Clearing an entry makes its page unmapped. */
  lemma ClearedUnmapped(pd: PageDir, n: nat)
    requires Pdx(n) in pd.tables
    ensures Mapping(SetPte(pd, n, 0), n).None?
  {
  }

  /** deallocuvm never creates a translation. */
  lemma {:induction false} DeallocNeverMaps(pd: PageDir, free: FreeList, n: nat, hi: nat, m: nat)
    requires DeallocFrom(pd, free, n, hi).Some?
    requires Mapping(pd, m).None?
    ensures Mapping(DeallocFrom(pd, free, n, hi).value.pd, m).None?
    decreases hi - n
  {
    if n >= hi {
    } else if Pdx(n) !in pd.tables {
      NextTableFacts(n, n);
      DeallocNeverMaps(pd, free, NextTable(n), hi, m);
    } else {
      var e := Lookup(pd, n).value;
      if !Present(e) {
        DeallocNeverMaps(pd, free, n + 1, hi, m);
      } else {
        if m == n {
          ClearedUnmapped(pd, n);
        } else {
          SetPteOther(pd, n, 0, m);
        }
        DeallocNeverMaps(SetPte(pd, n, 0), Kfree(free, PteAddr(e)), n + 1, hi, m);
      }
    }
  }

  /** After deallocuvm no page in [n, hi) is mapped. */
  lemma {:induction false} DeallocClears(pd: PageDir, free: FreeList, n: nat, hi: nat, m: nat)
    requires DeallocFrom(pd, free, n, hi).Some?
    requires n <= m < hi
    ensures Mapping(DeallocFrom(pd, free, n, hi).value.pd, m).None?
    decreases hi - n
  {
    if Pdx(n) !in pd.tables {
      NextTableFacts(n, m);
      if m < NextTable(n) {
        DeallocNeverMaps(pd, free, NextTable(n), hi, m);
      } else {
        DeallocClears(pd, free, NextTable(n), hi, m);
      }
    } else {
      var e := Lookup(pd, n).value;
      if m == n {
        if !Present(e) {
          DeallocNeverMaps(pd, free, n + 1, hi, m);
        } else {
          ClearedUnmapped(pd, n);
          DeallocNeverMaps(SetPte(pd, n, 0), Kfree(free, PteAddr(e)), n + 1, hi, m);
        }
      } else if !Present(e) {
        DeallocClears(pd, free, n + 1, hi, m);
      } else {
        DeallocClears(SetPte(pd, n, 0), Kfree(free, PteAddr(e)), n + 1, hi, m);
      }
    }
  }

  /** deallocuvm leaves every page outside [n, hi) as it was. */
  lemma {:induction false} DeallocFrame(pd: PageDir, free: FreeList, n: nat, hi: nat, m: nat)
    requires DeallocFrom(pd, free, n, hi).Some?
    requires m < n || hi <= m
    ensures Mapping(DeallocFrom(pd, free, n, hi).value.pd, m) == Mapping(pd, m)
    decreases hi - n
  {
    if n >= hi {
    } else if Pdx(n) !in pd.tables {
      NextTableFacts(n, n);
      DeallocFrame(pd, free, NextTable(n), hi, m);
    } else {
      var e := Lookup(pd, n).value;
      if !Present(e) {
        DeallocFrame(pd, free, n + 1, hi, m);
      } else {
        SetPteOther(pd, n, 0, m);
        DeallocFrame(SetPte(pd, n, 0), Kfree(free, PteAddr(e)), n + 1, hi, m);
      }
    }
  }

  /** Writing an entry that is absent or names a real page keeps NullFree. */
  lemma SetPteNullFree(pd: PageDir, n: nat, e: Pte)
    requires NullFree(pd) && Pdx(n) in pd.tables
    requires Present(e) ==> PteAddr(e) != 0
    ensures NullFree(SetPte(pd, n, e))
  {
    var r := SetPte(pd, n, e);
    forall x, i | x in r.tables && i in r.tables[x].ptes && Present(r.tables[x].ptes[i])
      ensures PteAddr(r.tables[x].ptes[i]) != 0
    {
      if x == Pdx(n) && i == Ptx(n) {
        assert r.tables[x].ptes[i] == e;
      }
    }
  }

  /** deallocuvm does not panic on a directory whose present entries all name non-null pages. */
  lemma {:induction false} DeallocNoPanic(pd: PageDir, free: FreeList, n: nat, hi: nat)
    requires NullFree(pd)
    ensures DeallocFrom(pd, free, n, hi).Some?
    decreases hi - n
  {
    if n >= hi {
    } else if Pdx(n) !in pd.tables {
      NextTableFacts(n, n);
      DeallocNoPanic(pd, free, NextTable(n), hi);
    } else {
      var e := Lookup(pd, n).value;
      if !Present(e) {
        DeallocNoPanic(pd, free, n + 1, hi);
      } else {
        assert Ptx(n) in pd.tables[Pdx(n)].ptes;
        SetPteNullFree(pd, n, 0);
        DeallocNoPanic(SetPte(pd, n, 0), Kfree(free, PteAddr(e)), n + 1, hi);
      }
    }
  }

  /**
   * deallocuvm (kernel/vm.c:280-304): with newsz >= oldsz it returns oldsz and
   * changes nothing; otherwise it frees the pages from PGROUNDUP(newsz) below
   * oldsz and returns newsz. The second result is None when the loop panics.
   * The loop's address a is page n: a = n * PGSIZE, and a < oldsz exactly
   * when n < Pages(oldsz).
   */
  method DeallocUvm(pd: PageDir, free: FreeList, oldsz: nat, newsz: nat) returns (r: nat, res: Option<Space>)
    ensures r == if newsz >= oldsz then oldsz else newsz
    ensures res == DeallocUvmSpec(pd, free, oldsz, newsz)
  {
    if newsz >= oldsz {
      return oldsz, Some(Space(pd, free));
    }
    var n := Pages(newsz);
    var hi := Pages(oldsz);
    var dir, pool := pd, free;
    ghost var spec := DeallocFrom(pd, free, n, hi);
    while n < hi
      invariant DeallocFrom(dir, pool, n, hi) == spec
      decreases hi as int - n
    {
      var failed;
      dir, pool, n, failed := DeallocStep(dir, pool, n, hi);
      if failed {
        return newsz, None;
      }
    }
    return newsz, Some(Space(dir, pool));
  }

  /**
   * One pass of deallocuvm's loop (kernel/vm.c:283-297) at page n: past a
   * missing page table to the next one, else the page's frame, when
   * present, is freed and its entry cleared; failed is the panic on a
   * present entry with address 0.
   */
  method DeallocStep(dir: PageDir, pool: FreeList, n: nat, hi: nat) returns (dir': PageDir, pool': FreeList, n': nat, failed: bool)
    requires n < hi
    ensures n < n'
    ensures failed ==> DeallocFrom(dir, pool, n, hi).None?
    ensures !failed ==> DeallocFrom(dir', pool', n', hi) == DeallocFrom(dir, pool, n, hi)
  {
    dir', pool', failed := dir, pool, false;
    var w := WalkPgDir(dir, pool, n, false);
    if w.pte.None? {
      DeallocSkips(dir, pool, n, hi);
      n' := NextTable(n) - 1;
    } else {
      var e := Lookup(dir, n).value;
      DeallocEntry(dir, pool, n, hi);
      if Present(e) {
        var pa := PteAddr(e);
        if pa == 0 {
          return dir, pool, n + 1, true;
        }
        pool' := Kfree(pool, pa);
        dir' := SetPte(dir, n, 0);
      }
      n' := n;
    }
    n' := n' + 1;
  }

  /** deallocuvm's loop passes over a missing page table to the next one. */
  lemma DeallocSkips(pd: PageDir, free: FreeList, n: nat, hi: nat)
    requires n < hi && Pdx(n) !in pd.tables
    ensures n < NextTable(n) && DeallocFrom(pd, free, n, hi) == DeallocFrom(pd, free, NextTable(n), hi)
  {
    NextTableFacts(n, n);
  }

  /** deallocuvm's loop at an entry of a present table: skip it, panic on address 0, or free its page and clear it. */
  lemma DeallocEntry(pd: PageDir, free: FreeList, n: nat, hi: nat)
    requires n < hi && Pdx(n) in pd.tables
    ensures var e := Lookup(pd, n).value;
      DeallocFrom(pd, free, n, hi) ==
        if !Present(e) then DeallocFrom(pd, free, n + 1, hi)
        else if PteAddr(e) == 0 then None
        else DeallocFrom(SetPte(pd, n, 0), Kfree(free, PteAddr(e)), n + 1, hi)
  {
  }

  /**
   * The loop of freevm over the page directory (kernel/vm.c:316-321), run
   * for the first n entries: each present entry's page table is freed, in
   * index order.
   */
  function FreeTablesBelow(pd: PageDir, free: FreeList, n: nat): (r: FreeList)
    requires n <= NPDENTRIES
    ensures Returned(free, r)
    ensures |r| == |free| + |set i | 0 <= i < n && i in pd.tables|
  {
    if n == 0 then free
    else
      var r := FreeTablesBelow(pd, free, n - 1);
      var below := set i | 0 <= i < n - 1 && i in pd.tables;
      if n - 1 in pd.tables then
        assert (set i | 0 <= i < n && i in pd.tables) == below + {n - 1};
        ReturnedTrans(free, r, Kfree(r, PteAddr(pd.tables[n - 1].pde)));
        Kfree(r, PteAddr(pd.tables[n - 1].pde))
      else
        assert (set i | 0 <= i < n && i in pd.tables) == below;
        r
  }

  /** What freevm does: None when deallocuvm panics, else the pool after freeing pages and tables. */
  function FreeVmSpec(pd: PageDir, free: FreeList): Option<FreeList>
  {
    match DeallocUvmSpec(pd, free, KERNBASE, 0)
    case None => None
    case Some(d) => Some(FreeTablesBelow(d.pd, d.free, NPDENTRIES))
  }

  /** The loop of freevm (kernel/vm.c:316-321): frees every page table. */
  method FreeTables(pd: PageDir, free: FreeList) returns (r: FreeList)
    ensures r == FreeTablesBelow(pd, free, NPDENTRIES)
  {
    r := free;
    var i := 0;
    while i < NPDENTRIES
      invariant i <= NPDENTRIES
      invariant r == FreeTablesBelow(pd, free, i)
    {
      if i in pd.tables {
        r := Kfree(r, PteAddr(pd.tables[i].pde));
      }
      i := i + 1;
    }
  }

  /**
   * freevm (kernel/vm.c:308-323): frees every user page below KERNBASE and
   * every page table, returning the pool; None when deallocuvm panics. The
   * page holding the directory itself is not part of this model.
   */
  method FreeVm(pd: PageDir, free: FreeList) returns (res: Option<FreeList>)
    ensures res == FreeVmSpec(pd, free)
  {
    var _, d := DeallocUvm(pd, free, KERNBASE, 0);
    if d.None? {
      return None;
    }
    var pool := FreeTables(d.value.pd, d.value.free);
    return Some(pool);
  }

  /**
   * freevm on a directory whose present entries all name real pages does
   * not panic, and it only returns pages to the pool: one more for each
   * page table.
   */
  lemma FreeVmReturnsPages(pd: PageDir, free: FreeList)
    requires NullFree(pd)
    ensures FreeVmSpec(pd, free).Some?
    ensures Returned(free, FreeVmSpec(pd, free).value)
  {
    DeallocNoPanic(pd, free, 0, Pages(KERNBASE));
    var d := DeallocFrom(pd, free, 0, Pages(KERNBASE)).value;
    ReturnedTrans(free, d.free, FreeTablesBelow(d.pd, d.free, NPDENTRIES));
  }

  // ---------------------------------------------------------------------
  // clearpteu, uva2ka

  /** Clearing PTE_U keeps presence and the frame address. */
  lemma ClearUserBit(e: Pte)
    ensures !UserAccessible(e & !PTE_U)
    ensures Present(e & !PTE_U) == Present(e)
    ensures PteAddr(e & !PTE_U) == PteAddr(e)
  {
  }

  /**
   * clearpteu (kernel/vm.c:327-336): clears PTE_U in the entry of page n;
   * None stands for panic("clearpteu") when the page table is missing.
   */
  function ClearPteU(pd: PageDir, n: nat): (r: Option<PageDir>)
    ensures r.None? <==> Pdx(n) !in pd.tables
    ensures r.Some? ==> Lookup(r.value, n).Some? && !UserAccessible(Lookup(r.value, n).value)
    ensures r.Some? ==> PteAddr(Lookup(r.value, n).value) == PteAddr(Lookup(pd, n).value)
    ensures r.Some? ==> (Mapping(r.value, n).Some? <==> Mapping(pd, n).Some?)
  {
    if Pdx(n) !in pd.tables then None
    else
      var e := Lookup(pd, n).value;
      ClearUserBit(e);
      Some(SetPte(pd, n, e & !PTE_U))
  }

  /** clearpteu changes the entry of its own page alone. */
  lemma ClearPteUOther(pd: PageDir, n: nat, m: nat)
    requires Pdx(n) in pd.tables && m != n
    ensures Mapping(ClearPteU(pd, n).value, m) == Mapping(pd, m)
  {
    SetPteOther(pd, n, Lookup(pd, n).value & !PTE_U, m);
  }

  /**
   * uva2ka (kernel/vm.c:373-384): the physical page of page n when its entry
   * is present and user-accessible, else 0 (None). The page table must
   * exist: the source reads through walkpgdir's result unchecked.
   */
  function Uva2ka(pd: PageDir, n: nat): (r: Option<bv32>)
    requires Pdx(n) in pd.tables
    ensures r.Some? <==> Mapping(pd, n).Some? && UserAccessible(Mapping(pd, n).value)
    ensures r.Some? ==> r.value == PteAddr(Mapping(pd, n).value)
  {
    var e := Lookup(pd, n).value;
    if e & PTE_P == 0 then None
    else if e & PTE_U == 0 then None
    else Some(PteAddr(e))
  }

  // ---------------------------------------------------------------------
  // allocuvm

  /**
   * Every page in the pool is a real page: non-null and page-aligned, as
   * kfree demands of the pages it is given.
   */
  predicate PoolOk(free: FreeList)
  {
    forall i :: 0 <= i < |free| ==> free[i] != 0 && PageAligned(free[i])
  }

  /** Taking pages off the pool keeps it well formed. */
  lemma PoolOkTail(free: FreeList)
    requires PoolOk(free) && free != []
    ensures PoolOk(free[1..])
  {
    forall i | 0 <= i < |free| - 1
      ensures free[1..][i] != 0 && PageAligned(free[1..][i])
    {
      assert free[1..][i] == free[i + 1];
    }
  }

  /** A step of mappages keeps the pool well formed. */
  lemma MapStepPoolOk(pd: PageDir, free: FreeList, n: nat, pa: bv32, perm: bv32)
    requires PoolOk(free)
    ensures PoolOk(MapStep(pd, free, n, pa, perm).free)
  {
    MapStepSummary(pd, free, n, pa, perm);
    if MapStep(pd, free, n, pa, perm).free != free {
      PoolOkTail(free);
    }
  }

  /** The entry allocuvm writes for an aligned frame names exactly that frame. */
  lemma UserEntry(pa: bv32)
    requires PageAligned(pa)
    ensures PteAddr(pa | (PTE_W | PTE_U) | PTE_P) == pa
    ensures Present(pa | (PTE_W | PTE_U) | PTE_P)
    ensures UserAccessible(pa | (PTE_W | PTE_U) | PTE_P)
    ensures (pa | (PTE_W | PTE_U) | PTE_P) & PTE_W != 0
  {
  }

  /** A page that allocuvm maps: present, writable, user-accessible, with a zeroed frame. */
  predicate ZeroUserPage(pd: PageDir, ph: Phys, n: nat)
  {
    Mapping(pd, n).Some? && UserAccessible(Mapping(pd, n).value) &&
    Mapping(pd, n).value & PTE_W != 0 &&
    Contents(ph, PteAddr(Mapping(pd, n).value)) == ZeroPage()
  }

  /** A step of mappages with a real frame keeps NullFree. */
  lemma MapStepNullFree(pd: PageDir, free: FreeList, n: nat, pa: bv32, perm: bv32)
    requires NullFree(pd) && PteAddr(pa | perm | PTE_P) != 0
    ensures NullFree(MapStep(pd, free, n, pa, perm).pd)
  {
    var w := WalkPgDir(pd, free, n, true);
    assert NullFree(w.pd) by {
      forall x, i | x in w.pd.tables && i in w.pd.tables[x].ptes && Present(w.pd.tables[x].ptes[i])
        ensures PteAddr(w.pd.tables[x].ptes[i]) != 0
      {
        assert x in pd.tables && w.pd.tables[x] == pd.tables[x];
      }
    }
    if w.pte.Some? && !Present(Lookup(w.pd, n).value) {
      SetPteNullFree(w.pd, n, pa | perm | PTE_P);
    }
  }

  /** kalloc followed by memset(mem, 0, PGSIZE): the head of the free list, now zeroed. */
  function TakeZeroed(ph: Phys): (r: Phys)
    requires ph.free != []
    ensures r.free == ph.free[1..] && Contents(r, ph.free[0]) == ZeroPage()
  {
    Phys(ph.free[1..], ph.data[Frame(ph.free[0]) := ZeroPage()])
  }

  /**
   * Why the loop of allocuvm stopped: it reached newsz, kalloc failed,
   * mappages failed (the frame just taken is then still to be freed), or
   * mappages panicked with "remap".
   */
  datatype AllocStop = Finished | OutOfMemory | MapFailed | Remapped
  datatype AllocLoop = AllocLoop(stop: AllocStop, pd: PageDir, ph: Phys, pa: bv32)

  /**
   * The loop of allocuvm (kernel/vm.c:256-272) from page n below page hi:
   * each page gets a zeroed frame from the free list, mapped PTE_W|PTE_U.
   */
  function AllocFrom(pd: PageDir, ph: Phys, n: nat, hi: nat): (r: AllocLoop)
    decreases hi - n
  {
    if n >= hi then AllocLoop(Finished, pd, ph, 0)
    else if ph.free == [] then AllocLoop(OutOfMemory, pd, ph, 0)
    else
      var pa := ph.free[0];
      var t := TakeZeroed(ph);
      var m := MapStep(pd, t.free, n, pa, PTE_W | PTE_U);
      if m.status == Remap then AllocLoop(Remapped, m.pd, t.(free := m.free), pa)
      else if m.status == NoMemory then AllocLoop(MapFailed, m.pd, t.(free := m.free), pa)
      else AllocFrom(m.pd, t.(free := m.free), n + 1, hi)
  }

  /** What allocuvm returns (its new size, or 0 on failure) and the memory after it. */
  datatype Grown = Grown(sz: nat, pd: PageDir, ph: Phys)

  /**
   * allocuvm (kernel/vm.c:246-274): 0 for a size reaching the shared-memory
   * area at virtShm, oldsz unchanged when shrinking, newsz once the loop has
   * mapped every page from PGROUNDUP(oldsz) below newsz; when kalloc or
   * mappages fails, deallocuvm(newsz, oldsz) undoes the growth, the frame
   * just taken is freed and the result is 0. None stands for a panic.
   */
  function AllocUvmSpec(pd: PageDir, ph: Phys, oldsz: nat, newsz: nat, virtShm: nat): Option<Grown>
  {
    if newsz >= virtShm then Some(Grown(0, pd, ph))
    else if newsz < oldsz then Some(Grown(oldsz, pd, ph))
    else
      var l := AllocFrom(pd, ph, Pages(oldsz), Pages(newsz));
      match l.stop
      case Finished => Some(Grown(newsz, l.pd, l.ph))
      case Remapped => None
      case OutOfMemory =>
        (match DeallocUvmSpec(l.pd, l.ph.free, newsz, oldsz)
         case None => None
         case Some(d) => Some(Grown(0, d.pd, l.ph.(free := d.free))))
      case MapFailed =>
        (match DeallocUvmSpec(l.pd, l.ph.free, newsz, oldsz)
         case None => None
         case Some(d) => Some(Grown(0, d.pd, l.ph.(free := Kfree(d.free, l.pa)))))
  }

  /** After a page is mapped, allocuvm's loop carries on from the next page. */
  lemma AllocFromNext(pd: PageDir, ph: Phys, n: nat, hi: nat)
    requires n < hi && ph.free != []
    requires MapStep(pd, ph.free[1..], n, ph.free[0], PTE_W | PTE_U).status == Mapped
    ensures var s := MapStep(pd, ph.free[1..], n, ph.free[0], PTE_W | PTE_U);
      AllocFrom(pd, ph, n, hi) == AllocFrom(s.pd, TakeZeroed(ph).(free := s.free), n + 1, hi)
  {
  }

  /**
   * The loop of allocuvm (kernel/vm.c:256-272), proved against AllocFrom: it
   * reports why it stopped and leaves the clean-up to AllocUvm. The loop's
   * address a is page n: a = n * PGSIZE, and a < newsz exactly when
   * n < Pages(newsz).
   */
  method AllocPages(pd: PageDir, ph: Phys, lo: nat, hi: nat) returns (l: AllocLoop)
    ensures l == AllocFrom(pd, ph, lo, hi)
  {
    var n := lo;
    var dir, mem := pd, ph;
    while n < hi
      invariant AllocFrom(dir, mem, n, hi) == AllocFrom(pd, ph, lo, hi)
      decreases hi - n
    {
      var stop;
      stop, dir, mem := AllocPage(dir, mem, n, hi);
      if stop.Some? {
        return stop.value;
      }
      n := n + 1;
    }
    return AllocLoop(Finished, dir, mem, 0);
  }

  /**
   * One turn of the loop of allocuvm (kernel/vm.c:257-271), for page n: the
   * loop's result when the turn ends it, else the directory and the memory
   * the loop goes on with. Its call of mappages on the PGSIZE bytes at
   * n * PGSIZE is one step of mappages' own loop (MapPagesOnePage).
   */
  method AllocPage(pd: PageDir, ph: Phys, n: nat, hi: nat) returns (stop: Option<AllocLoop>, dir: PageDir, mem: Phys)
    requires n < hi
    ensures stop.Some? ==> stop.value == AllocFrom(pd, ph, n, hi)
    ensures stop.None? ==> AllocFrom(dir, mem, n + 1, hi) == AllocFrom(pd, ph, n, hi)
  {
    if ph.free == [] {
      return Some(AllocLoop(OutOfMemory, pd, ph, 0)), pd, ph;
    }
    var pa := ph.free[0];
    var t := TakeZeroed(ph);
    var m := MapStep(pd, t.free, n, pa, PTE_W | PTE_U);
    if m.status == Remap {
      return Some(AllocLoop(Remapped, m.pd, t.(free := m.free), pa)), pd, ph;
    }
    if m.status == NoMemory {
      return Some(AllocLoop(MapFailed, m.pd, t.(free := m.free), pa)), pd, ph;
    }
    AllocFromNext(pd, ph, n, hi);
    return None, m.pd, t.(free := m.free);
  }

  /** allocuvm (kernel/vm.c:246-274), proved against AllocUvmSpec. */
  method AllocUvm(pd: PageDir, ph: Phys, oldsz: nat, newsz: nat, virtShm: nat) returns (res: Option<Grown>)
    ensures res == AllocUvmSpec(pd, ph, oldsz, newsz, virtShm)
  {
    if newsz >= virtShm {
      return Some(Grown(0, pd, ph));
    }
    if newsz < oldsz {
      return Some(Grown(oldsz, pd, ph));
    }
    var l := AllocPages(pd, ph, Pages(oldsz), Pages(newsz));
    match l.stop
    case Finished =>
      return Some(Grown(newsz, l.pd, l.ph));
    case Remapped =>
      return None;
    case OutOfMemory =>
      var _, d := DeallocUvm(l.pd, l.ph.free, newsz, oldsz);
      if d.None? {
        return None;
      }
      return Some(Grown(0, d.value.pd, l.ph.(free := d.value.free)));
    case MapFailed =>
      var _, d := DeallocUvm(l.pd, l.ph.free, newsz, oldsz);
      if d.None? {
        return None;
      }
      return Some(Grown(0, d.value.pd, l.ph.(free := Kfree(d.value.free, l.pa))));
  }

  /** allocuvm's loop leaves the pages below n and from hi on as they were. */
  lemma {:induction false} AllocFrame(pd: PageDir, ph: Phys, n: nat, hi: nat, m: nat)
    requires m < n || hi <= m
    ensures Mapping(AllocFrom(pd, ph, n, hi).pd, m) == Mapping(pd, m)
    decreases hi - n
  {
    if n < hi && ph.free != [] {
      var t := TakeZeroed(ph);
      var s := MapStep(pd, t.free, n, ph.free[0], PTE_W | PTE_U);
      MapStepFrame(pd, t.free, n, ph.free[0], PTE_W | PTE_U, m);
      if s.status == Mapped {
        AllocFrame(s.pd, t.(free := s.free), n + 1, hi, m);
      }
    }
  }

  /** A zeroed page stays zeroed through allocuvm's loop. */
  lemma {:induction false} AllocKeepsZero(pd: PageDir, ph: Phys, n: nat, hi: nat, q: bv32)
    requires Contents(ph, q) == ZeroPage()
    ensures Contents(AllocFrom(pd, ph, n, hi).ph, q) == ZeroPage()
    decreases hi - n
  {
    if n < hi && ph.free != [] {
      var t := TakeZeroed(ph);
      var s := MapStep(pd, t.free, n, ph.free[0], PTE_W | PTE_U);
      assert Contents(t.(free := s.free), q) == ZeroPage();
      if s.status == Mapped {
        AllocKeepsZero(s.pd, t.(free := s.free), n + 1, hi, q);
      }
    }
  }

  /** When allocuvm's loop finishes, its first page is mapped onto a zeroed frame. */
  lemma AllocMapsFirst(pd: PageDir, ph: Phys, n: nat, hi: nat)
    requires n < hi && PoolOk(ph.free)
    requires AllocFrom(pd, ph, n, hi).stop == Finished
    ensures ZeroUserPage(AllocFrom(pd, ph, n, hi).pd, AllocFrom(pd, ph, n, hi).ph, n)
  {
    var pa := ph.free[0];
    var t := TakeZeroed(ph);
    var s := MapStep(pd, t.free, n, pa, PTE_W | PTE_U);
    MapStepMaps(pd, t.free, n, pa, PTE_W | PTE_U);
    UserEntry(pa);
    AllocFrame(s.pd, t.(free := s.free), n + 1, hi, n);
    AllocKeepsZero(s.pd, t.(free := s.free), n + 1, hi, pa);
  }

  /**
   * When allocuvm's loop finishes, every page from n below hi is present,
   * writable and user-accessible, on a zeroed frame.
   */
  lemma {:induction false} AllocMapsZeroed(pd: PageDir, ph: Phys, n: nat, hi: nat, m: nat)
    requires PoolOk(ph.free)
    requires AllocFrom(pd, ph, n, hi).stop == Finished
    requires n <= m < hi
    ensures ZeroUserPage(AllocFrom(pd, ph, n, hi).pd, AllocFrom(pd, ph, n, hi).ph, m)
    decreases hi - n, 1
  {
    if m == n {
      AllocMapsFirst(pd, ph, n, hi);
    } else {
      AllocMapsLater(pd, ph, n, hi, m);
    }
  }

  /** The case of AllocMapsZeroed for a page after the first: the rest of the loop maps it. */
  lemma {:induction false} AllocMapsLater(pd: PageDir, ph: Phys, n: nat, hi: nat, m: nat)
    requires PoolOk(ph.free)
    requires AllocFrom(pd, ph, n, hi).stop == Finished
    requires n < m < hi
    ensures ZeroUserPage(AllocFrom(pd, ph, n, hi).pd, AllocFrom(pd, ph, n, hi).ph, m)
    decreases hi - n, 0
  {
    var pa := ph.free[0];
    var t := TakeZeroed(ph);
    var s := MapStep(pd, t.free, n, pa, PTE_W | PTE_U);
    AllocFromNext(pd, ph, n, hi);
    PoolOkTail(ph.free);
    MapStepPoolOk(pd, t.free, n, pa, PTE_W | PTE_U);
    AllocMapsZeroed(s.pd, t.(free := s.free), n + 1, hi, m);
  }

  /**
   * A successful allocuvm returns newsz and maps every page from
   * PGROUNDUP(oldsz) below newsz present, writable and user-accessible, on
   * a zeroed frame.
   */
  lemma AllocUvmMaps(pd: PageDir, ph: Phys, oldsz: nat, newsz: nat, virtShm: nat, m: nat)
    requires oldsz <= newsz < virtShm && PoolOk(ph.free)
    requires AllocFrom(pd, ph, Pages(oldsz), Pages(newsz)).stop == Finished
    requires Pages(oldsz) <= m < Pages(newsz)
    ensures AllocUvmSpec(pd, ph, oldsz, newsz, virtShm).Some?
    ensures AllocUvmSpec(pd, ph, oldsz, newsz, virtShm).value.sz == newsz
    ensures ZeroUserPage(AllocUvmSpec(pd, ph, oldsz, newsz, virtShm).value.pd,
                         AllocUvmSpec(pd, ph, oldsz, newsz, virtShm).value.ph, m)
  {
    AllocMapsZeroed(pd, ph, Pages(oldsz), Pages(newsz), m);
  }

  /** allocuvm's loop can stop short only when it had a page to map. */
  lemma AllocStopsShort(pd: PageDir, ph: Phys, n: nat, hi: nat)
    requires AllocFrom(pd, ph, n, hi).stop != Finished
    ensures n < hi
  {
  }

  /**
   * A failed allocuvm (kalloc or mappages ran out of pages) returns 0, leaves
   * every page from PGROUNDUP(oldsz) below newsz unmapped and every other
   * page as it was.
   */
  lemma AllocUvmRollback(pd: PageDir, ph: Phys, oldsz: nat, newsz: nat, virtShm: nat, m: nat)
    requires oldsz <= newsz < virtShm
    requires AllocFrom(pd, ph, Pages(oldsz), Pages(newsz)).stop in {OutOfMemory, MapFailed}
    requires AllocUvmSpec(pd, ph, oldsz, newsz, virtShm).Some?
    ensures AllocUvmSpec(pd, ph, oldsz, newsz, virtShm).value.sz == 0
    ensures Pages(oldsz) <= m < Pages(newsz) ==>
      Mapping(AllocUvmSpec(pd, ph, oldsz, newsz, virtShm).value.pd, m).None?
    ensures !(Pages(oldsz) <= m < Pages(newsz)) ==>
      Mapping(AllocUvmSpec(pd, ph, oldsz, newsz, virtShm).value.pd, m) == Mapping(pd, m)
  {
    var lo, hi := Pages(oldsz), Pages(newsz);
    var l := AllocFrom(pd, ph, lo, hi);
    AllocStopsShort(pd, ph, lo, hi);
    if newsz == oldsz {
      assert false;
    }
    if lo <= m < hi {
      DeallocClears(l.pd, l.ph.free, lo, hi, m);
    } else {
      DeallocFrame(l.pd, l.ph.free, lo, hi, m);
      AllocFrame(pd, ph, lo, hi, m);
    }
  }

  /**
   * allocuvm's loop does not panic, and keeps NullFree, when the pages it is
   * to map are unmapped, every present entry names a real page and the free
   * list holds real pages.
   */
  lemma {:induction false} AllocFromSafe(pd: PageDir, ph: Phys, n: nat, hi: nat)
    requires NullFree(pd) && PoolOk(ph.free)
    requires forall m :: n <= m < hi ==> Mapping(pd, m).None?
    ensures AllocFrom(pd, ph, n, hi).stop != Remapped
    ensures NullFree(AllocFrom(pd, ph, n, hi).pd)
    decreases hi - n
  {
    if n < hi && ph.free != [] {
      var pa := ph.free[0];
      var t := TakeZeroed(ph);
      var s := MapStep(pd, t.free, n, pa, PTE_W | PTE_U);
      UserEntry(pa);
      MapStepNullFree(pd, t.free, n, pa, PTE_W | PTE_U);
      MapStepSummary(pd, t.free, n, pa, PTE_W | PTE_U);
      if s.status == Mapped {
        PoolOkTail(ph.free);
        MapStepPoolOk(pd, t.free, n, pa, PTE_W | PTE_U);
        forall m | n + 1 <= m < hi
          ensures Mapping(s.pd, m).None?
        {
          MapStepFrame(pd, t.free, n, pa, PTE_W | PTE_U, m);
        }
        AllocFromSafe(s.pd, t.(free := s.free), n + 1, hi);
      }
    }
  }

  /**
   * allocuvm does not panic when the pages it is to map are unmapped, every
   * present entry names a real page and the free list holds real pages.
   */
  lemma AllocUvmNoPanic(pd: PageDir, ph: Phys, oldsz: nat, newsz: nat, virtShm: nat)
    requires NullFree(pd) && PoolOk(ph.free)
    requires forall m :: Pages(oldsz) <= m < Pages(newsz) ==> Mapping(pd, m).None?
    ensures AllocUvmSpec(pd, ph, oldsz, newsz, virtShm).Some?
  {
    if oldsz <= newsz < virtShm {
      var lo, hi := Pages(oldsz), Pages(newsz);
      AllocFromSafe(pd, ph, lo, hi);
      var l := AllocFrom(pd, ph, lo, hi);
      DeallocNoPanic(l.pd, l.ph.free, lo, hi);
    }
  }

  // ---------------------------------------------------------------------
  // copyuvm

  /** kalloc followed by memmove(mem, P2V(pa), PGSIZE): the head of the free list, now a copy of page pa. */
  function TakeCopy(ph: Phys, pa: bv32): (r: Phys)
    requires ph.free != []
    ensures r.free == ph.free[1..] && Contents(r, ph.free[0]) == Contents(ph, pa)
    ensures forall q :: q != ph.free[0] ==> Contents(r, q) == Contents(ph, q)
  {
    Phys(ph.free[1..], ph.data[Frame(ph.free[0]) := Contents(ph, pa)])
  }

  /**
   * Why the loop of copyuvm stopped: it copied every page, kalloc or
   * mappages ran out of pages (goto bad), or it panicked.
   */
  datatype CopyStop = CopyDone | CopyBad | CopyPanic
  datatype CopyLoop = CopyLoop(stop: CopyStop, d: PageDir, ph: Phys)

  /**
   * The loop of copyuvm (kernel/vm.c:350-364) from page n below page hi,
   * building the child directory d: every parent page must be mapped; it
   * gets a fresh frame holding a copy of its contents, mapped with the
   * parent entry's flags. When mappages fails the fresh frame is freed.
   */
  function CopyFrom(pd: PageDir, ph: Phys, d: PageDir, n: nat, hi: nat): (r: CopyLoop)
    decreases hi - n
  {
    if n >= hi then CopyLoop(CopyDone, d, ph)
    else if Lookup(pd, n).None? || !Present(Lookup(pd, n).value) then CopyLoop(CopyPanic, d, ph)
    else if ph.free == [] then CopyLoop(CopyBad, d, ph)
    else
      var e := Lookup(pd, n).value;
      var mem := ph.free[0];
      var t := TakeCopy(ph, PteAddr(e));
      var m := MapStep(d, t.free, n, mem, PteFlags(e));
      if m.status == Remap then CopyLoop(CopyPanic, m.pd, t.(free := m.free))
      else if m.status == NoMemory then CopyLoop(CopyBad, m.pd, t.(free := Kfree(m.free, mem)))
      else CopyFrom(pd, t.(free := m.free), m.pd, n + 1, hi)
  }

  /** After a page is copied, copyuvm's loop carries on from the next page. */
  lemma CopyFromNext(pd: PageDir, ph: Phys, d: PageDir, n: nat, hi: nat)
    requires n < hi && ph.free != [] && Mapping(pd, n).Some?
    requires MapStep(d, ph.free[1..], n, ph.free[0], PteFlags(Mapping(pd, n).value)).status == Mapped
    ensures var e := Mapping(pd, n).value;
      var m := MapStep(d, ph.free[1..], n, ph.free[0], PteFlags(e));
      CopyFrom(pd, ph, d, n, hi) == CopyFrom(pd, TakeCopy(ph, PteAddr(e)).(free := m.free), m.pd, n + 1, hi)
  {
  }

  /** What copyuvm returns (the child's directory, or 0) and the memory after it. */
  datatype Copied = Copied(child: Option<PageDir>, ph: Phys)

  /**
   * copyuvm (kernel/vm.c:340-370). kvm is what setupkvm returned: None
   * when it failed, else a directory holding the kernel mappings alone.
   * On success the child directory is returned; when memory runs out the
   * partial copy goes to freevm and the result is 0. None stands for a
   * panic.
   */
  function CopyUvmSpec(pd: PageDir, ph: Phys, sz: nat, kvm: Option<PageDir>): Option<Copied>
  {
    match kvm
    case None => Some(Copied(None, ph))
    case Some(d) =>
      var l := CopyFrom(pd, ph, d, 0, Pages(sz));
      match l.stop
      case CopyDone => Some(Copied(Some(l.d), l.ph))
      case CopyPanic => None
      case CopyBad =>
        (match FreeVmSpec(l.d, l.ph.free)
         case None => None
         case Some(free) => Some(Copied(None, l.ph.(free := free))))
  }

  /**
   * The loop of copyuvm (kernel/vm.c:350-364), proved against CopyFrom; it
   * reports why it stopped and leaves the clean-up to CopyUvm. The loop's
   * address i is page n: i = n * PGSIZE, and i < sz exactly when
   * n < Pages(sz).
   */
  method CopyPages(pd: PageDir, ph: Phys, d: PageDir, hi: nat) returns (l: CopyLoop)
    ensures l == CopyFrom(pd, ph, d, 0, hi)
  {
    var n := 0;
    var child, mem := d, ph;
    while n < hi
      invariant CopyFrom(pd, mem, child, n, hi) == CopyFrom(pd, ph, d, 0, hi)
      decreases hi - n
    {
      var stop;
      stop, child, mem := CopyPage(pd, mem, child, n, hi);
      if stop.Some? {
        return stop.value;
      }
      n := n + 1;
    }
    return CopyLoop(CopyDone, child, mem);
  }

  /**
   * One turn of the loop of copyuvm (kernel/vm.c:351-363), for page n: the
   * loop's result when the turn ends it, else the child and the memory the
   * loop goes on with. Its call of mappages on the PGSIZE bytes at
   * n * PGSIZE is one step of mappages' own loop (MapPagesOnePage).
   */
  method CopyPage(pd: PageDir, ph: Phys, d: PageDir, n: nat, hi: nat) returns (stop: Option<CopyLoop>, child: PageDir, mem: Phys)
    requires n < hi
    ensures stop.Some? ==> stop.value == CopyFrom(pd, ph, d, n, hi)
    ensures stop.None? ==> CopyFrom(pd, mem, child, n + 1, hi) == CopyFrom(pd, ph, d, n, hi)
  {
    child, mem := d, ph;
    var w := WalkPgDir(pd, [], n, false);
    if w.pte.None? {
      return Some(CopyLoop(CopyPanic, d, ph)), d, ph;
    }
    var e := Lookup(pd, n).value;
    if !Present(e) {
      return Some(CopyLoop(CopyPanic, d, ph)), d, ph;
    }
    var pa, flags := PteAddr(e), PteFlags(e);
    if ph.free == [] {
      return Some(CopyLoop(CopyBad, d, ph)), d, ph;
    }
    var frame := ph.free[0];
    var t := TakeCopy(ph, pa);
    var m := MapStep(d, t.free, n, frame, flags);
    if m.status == Remap {
      return Some(CopyLoop(CopyPanic, m.pd, t.(free := m.free))), d, ph;
    }
    if m.status == NoMemory {
      return Some(CopyLoop(CopyBad, m.pd, t.(free := Kfree(m.free, frame)))), d, ph;
    }
    CopyFromNext(pd, ph, d, n, hi);
    return None, m.pd, t.(free := m.free);
  }

  /** copyuvm (kernel/vm.c:340-370), proved against CopyUvmSpec. */
  method CopyUvm(pd: PageDir, ph: Phys, sz: nat, kvm: Option<PageDir>) returns (res: Option<Copied>)
    ensures res == CopyUvmSpec(pd, ph, sz, kvm)
  {
    if kvm.None? {
      return Some(Copied(None, ph));
    }
    var l := CopyPages(pd, ph, kvm.value, Pages(sz));
    match l.stop
    case CopyDone =>
      return Some(Copied(Some(l.d), l.ph));
    case CopyPanic =>
      return None;
    case CopyBad =>
      var free := FreeVm(l.d, l.ph.free);
      if free.None? {
        return None;
      }
      return Some(Copied(None, l.ph.(free := free.value)));
  }

  /** copyuvm's loop leaves the child's pages below n and from hi on as they were. */
  lemma {:induction false} CopyFrame(pd: PageDir, ph: Phys, d: PageDir, n: nat, hi: nat, m: nat)
    requires m < n || hi <= m
    ensures Mapping(CopyFrom(pd, ph, d, n, hi).d, m) == Mapping(d, m)
    decreases hi - n
  {
    if n < hi && Mapping(pd, n).Some? && ph.free != [] {
      var e := Lookup(pd, n).value;
      var t := TakeCopy(ph, PteAddr(e));
      var s := MapStep(d, t.free, n, ph.free[0], PteFlags(e));
      MapStepFrame(d, t.free, n, ph.free[0], PteFlags(e), m);
      if s.status == Mapped {
        CopyFrame(pd, t.(free := s.free), s.pd, n + 1, hi, m);
      }
    }
  }

  /** copyuvm's loop writes only pages it takes from the pool. */
  lemma {:induction false} CopyKeeps(pd: PageDir, ph: Phys, d: PageDir, n: nat, hi: nat, q: bv32)
    requires q !in ph.free
    ensures Contents(CopyFrom(pd, ph, d, n, hi).ph, q) == Contents(ph, q)
    decreases hi - n
  {
    if n < hi && Mapping(pd, n).Some? && ph.free != [] {
      var e := Lookup(pd, n).value;
      var t := TakeCopy(ph, PteAddr(e));
      var s := MapStep(d, t.free, n, ph.free[0], PteFlags(e));
      MapStepSummary(d, t.free, n, ph.free[0], PteFlags(e));
      assert q !in t.free;
      if s.status == Mapped {
        CopyKeeps(pd, t.(free := s.free), s.pd, n + 1, hi, q);
      }
    }
  }

  /** No page appears twice in the list. */
  predicate Distinct(free: FreeList)
  {
    free == [] || (free[0] !in free[1..] && Distinct(free[1..]))
  }

  /** The parent's pages from n below hi are all in use: none of them is on the free list. */
  predicate InUse(pd: PageDir, free: FreeList, n: nat, hi: nat)
  {
    forall k :: n <= k < hi && Mapping(pd, k).Some? ==> PteAddr(Mapping(pd, k).value) !in free
  }

  /** The entry copyuvm writes names the fresh frame and keeps the parent's flags. */
  lemma CopyEntry(mem: bv32, e: Pte)
    requires PageAligned(mem) && Present(e)
    ensures PteAddr(mem | PteFlags(e) | PTE_P) == mem
    ensures PteFlags(mem | PteFlags(e) | PTE_P) == PteFlags(e)
  {
  }

  /** What copyuvm promises for page m: the child copies parent page m with its flags, on a page from the pool. */
  predicate CopiedPage(pd: PageDir, ph: Phys, child: PageDir, after: Phys, m: nat)
  {
    Mapping(pd, m).Some? && Mapping(child, m).Some? &&
    PteFlags(Mapping(child, m).value) == PteFlags(Mapping(pd, m).value) &&
    PteAddr(Mapping(child, m).value) in ph.free &&
    Contents(after, PteAddr(Mapping(child, m).value)) == Contents(ph, PteAddr(Mapping(pd, m).value))
  }

  /** When copyuvm's loop copies every page from n, page n is copied. */
  lemma CopyFromCopiesFirst(pd: PageDir, ph: Phys, d: PageDir, n: nat, hi: nat)
    requires PoolOk(ph.free) && Distinct(ph.free)
    requires CopyFrom(pd, ph, d, n, hi).stop == CopyDone
    requires n < hi
    ensures CopiedPage(pd, ph, CopyFrom(pd, ph, d, n, hi).d, CopyFrom(pd, ph, d, n, hi).ph, n)
  {
    var e := Lookup(pd, n).value;
    var mem := ph.free[0];
    var t := TakeCopy(ph, PteAddr(e));
    var s := MapStep(d, t.free, n, mem, PteFlags(e));
    var rest := t.(free := s.free);
    CopyFromNext(pd, ph, d, n, hi);
    MapStepSummary(d, t.free, n, mem, PteFlags(e));
    assert mem !in s.free;
    MapStepMaps(d, t.free, n, mem, PteFlags(e));
    CopyEntry(mem, e);
    CopyFrame(pd, rest, s.pd, n + 1, hi, n);
    CopyKeeps(pd, rest, s.pd, n + 1, hi, mem);
  }

  /**
   * Taking pages off the front of a pool of distinct, real pages none of
   * which the parent uses leaves such a pool.
   */
  lemma PoolTail(pd: PageDir, free: FreeList, rest: FreeList, n: nat, hi: nat)
    requires PoolOk(free) && Distinct(free) && InUse(pd, free, n, hi) && free != []
    requires rest == free[1..] || (|free| > 1 && rest == free[1..][1..])
    ensures PoolOk(rest) && Distinct(rest) && InUse(pd, rest, n + 1, hi)
    ensures forall x :: x in rest ==> x in free
    ensures free[0] !in rest
  {
    PoolOkTail(free);
    if rest != free[1..] {
      PoolOkTail(free[1..]);
    }
    forall k | n + 1 <= k < hi && Mapping(pd, k).Some?
      ensures PteAddr(Mapping(pd, k).value) !in rest
    {
      assert PteAddr(Mapping(pd, k).value) !in free;
    }
  }

  /**
   * When copyuvm's loop copies every page, each parent page m from n below hi
   * is copied (CopiedPage); this needs a pool of distinct, real pages, none
   * of them in use by the parent.
   */
  lemma {:induction false} CopyFromCopies(pd: PageDir, ph: Phys, d: PageDir, n: nat, hi: nat, m: nat)
    requires PoolOk(ph.free) && Distinct(ph.free) && InUse(pd, ph.free, n, hi)
    requires CopyFrom(pd, ph, d, n, hi).stop == CopyDone
    requires n <= m < hi
    ensures CopiedPage(pd, ph, CopyFrom(pd, ph, d, n, hi).d, CopyFrom(pd, ph, d, n, hi).ph, m)
    decreases hi - n, 1
  {
    if m == n {
      CopyFromCopiesFirst(pd, ph, d, n, hi);
    } else {
      CopyFromCopiesLater(pd, ph, d, n, hi, m);
    }
  }

  /** The case of CopyFromCopies for a page after the first: the rest of the loop copies it. */
  lemma {:induction false} CopyFromCopiesLater(pd: PageDir, ph: Phys, d: PageDir, n: nat, hi: nat, m: nat)
    requires PoolOk(ph.free) && Distinct(ph.free) && InUse(pd, ph.free, n, hi)
    requires CopyFrom(pd, ph, d, n, hi).stop == CopyDone
    requires n < m < hi
    ensures CopiedPage(pd, ph, CopyFrom(pd, ph, d, n, hi).d, CopyFrom(pd, ph, d, n, hi).ph, m)
    decreases hi - n, 0
  {
    var e := Lookup(pd, n).value;
    var mem := ph.free[0];
    var t := TakeCopy(ph, PteAddr(e));
    var s := MapStep(d, t.free, n, mem, PteFlags(e));
    var rest := t.(free := s.free);
    var l := CopyFrom(pd, rest, s.pd, n + 1, hi);
    CopyFromNext(pd, ph, d, n, hi);
    MapStepSummary(d, t.free, n, mem, PteFlags(e));
    PoolTail(pd, ph.free, s.free, n, hi);
    CopyFromCopies(pd, rest, s.pd, n + 1, hi, m);
    var a := PteAddr(Mapping(pd, m).value);
    assert a != mem;
    assert Contents(rest, a) == Contents(ph, a);
    CopiedFromMore(pd, rest, ph, l.d, l.ph, m);
  }

  /** A page copied from a smaller pool, with the source page unchanged, is copied from the larger pool. */
  lemma CopiedFromMore(pd: PageDir, small: Phys, big: Phys, child: PageDir, after: Phys, m: nat)
    requires CopiedPage(pd, small, child, after, m)
    requires forall x :: x in small.free ==> x in big.free
    requires Contents(small, PteAddr(Mapping(pd, m).value)) == Contents(big, PteAddr(Mapping(pd, m).value))
    ensures CopiedPage(pd, big, child, after, m)
  {
  }

  /**
   * copyuvm's loop panics only when a parent page from n below hi is
   * missing or not present, or the child already maps it.
   */
  lemma {:induction false} CopyPanics(pd: PageDir, ph: Phys, d: PageDir, n: nat, hi: nat)
    requires CopyFrom(pd, ph, d, n, hi).stop == CopyPanic
    ensures exists k :: n <= k < hi && (Mapping(pd, k).None? || Mapping(d, k).Some?)
    decreases hi - n
  {
    if Mapping(pd, n).None? {
      assert n <= n < hi && Mapping(pd, n).None?;
    } else {
      var e := Lookup(pd, n).value;
      var t := TakeCopy(ph, PteAddr(e));
      var s := MapStep(d, t.free, n, ph.free[0], PteFlags(e));
      MapStepSummary(d, t.free, n, ph.free[0], PteFlags(e));
      if s.status == Remap {
        assert n <= n < hi && Mapping(d, n).Some?;
      } else {
        CopyPanics(pd, t.(free := s.free), s.pd, n + 1, hi);
        var k :| n + 1 <= k < hi && (Mapping(pd, k).None? || Mapping(s.pd, k).Some?);
        MapStepFrame(d, t.free, n, ph.free[0], PteFlags(e), k);
      }
    }
  }

  /**
   * copyuvm's loop keeps NullFree in the child when the pool holds real
   * pages.
   */
  lemma {:induction false} CopyFromNullFree(pd: PageDir, ph: Phys, d: PageDir, n: nat, hi: nat)
    requires NullFree(d) && PoolOk(ph.free)
    ensures NullFree(CopyFrom(pd, ph, d, n, hi).d)
    decreases hi - n
  {
    if n < hi && Mapping(pd, n).Some? && ph.free != [] {
      var e := Lookup(pd, n).value;
      var t := TakeCopy(ph, PteAddr(e));
      var s := MapStep(d, t.free, n, ph.free[0], PteFlags(e));
      CopyEntry(ph.free[0], e);
      MapStepNullFree(d, t.free, n, ph.free[0], PteFlags(e));
      if s.status == Mapped {
        PoolOkTail(ph.free);
        MapStepPoolOk(d, t.free, n, ph.free[0], PteFlags(e));
        CopyFromNullFree(pd, t.(free := s.free), s.pd, n + 1, hi);
      }
    }
  }

  /**
   * A successful copyuvm gives the child, for every page below sz, a frame
   * from the pool holding a copy of the parent page, with the parent's
   * flags, and keeps every other mapping of the kernel directory kvm.
   */
  lemma CopyUvmCopies(pd: PageDir, ph: Phys, sz: nat, kvm: PageDir, m: nat)
    requires PoolOk(ph.free) && Distinct(ph.free) && InUse(pd, ph.free, 0, Pages(sz))
    requires CopyUvmSpec(pd, ph, sz, Some(kvm)).Some? && CopyUvmSpec(pd, ph, sz, Some(kvm)).value.child.Some?
    ensures var c := CopyUvmSpec(pd, ph, sz, Some(kvm)).value;
      m < Pages(sz) ==> CopiedPage(pd, ph, c.child.value, c.ph, m)
    ensures var c := CopyUvmSpec(pd, ph, sz, Some(kvm)).value;
      m >= Pages(sz) ==> Mapping(c.child.value, m) == Mapping(kvm, m)
  {
    if m < Pages(sz) {
      CopyFromCopies(pd, ph, kvm, 0, Pages(sz), m);
    } else {
      CopyFrame(pd, ph, kvm, 0, Pages(sz), m);
    }
  }

  /**
   * When copyuvm runs out of memory on a kernel directory whose entries all
   * name real pages, with a pool of real pages, it does not panic: it
   * returns 0 and freevm returns the partial copy's pages to the pool.
   */
  lemma CopyUvmFrees(pd: PageDir, ph: Phys, sz: nat, kvm: PageDir)
    requires NullFree(kvm) && PoolOk(ph.free)
    requires CopyFrom(pd, ph, kvm, 0, Pages(sz)).stop == CopyBad
    ensures CopyUvmSpec(pd, ph, sz, Some(kvm)).Some?
    ensures CopyUvmSpec(pd, ph, sz, Some(kvm)).value.child.None?
    ensures Returned(CopyFrom(pd, ph, kvm, 0, Pages(sz)).ph.free, CopyUvmSpec(pd, ph, sz, Some(kvm)).value.ph.free)
  {
    var l := CopyFrom(pd, ph, kvm, 0, Pages(sz));
    CopyFromNullFree(pd, ph, kvm, 0, Pages(sz));
    FreeVmReturnsPages(l.d, l.ph.free);
  }

  // ---------------------------------------------------------------------
  // copyout

  /** memmove(P2V(pa) + off, bytes, |bytes|): bytes written into page pa from offset off. */
  function WriteBytes(ph: Phys, pa: bv32, off: nat, bytes: seq<bv8>): (r: Phys)
    requires off + |bytes| <= PGSIZE
    ensures r.free == ph.free
  {
    var c := Contents(ph, pa);
    ph.(data := ph.data[Frame(pa) := c[..off] + bytes + c[off + |bytes|..]])
  }

  /** WriteBytes puts byte i of bytes at offset off + i of page pa. */
  lemma WriteBytesAt(ph: Phys, pa: bv32, off: nat, bytes: seq<bv8>, i: nat)
    requires off + |bytes| <= PGSIZE && i < |bytes|
    ensures Contents(WriteBytes(ph, pa, off, bytes), pa)[off + i] == bytes[i]
  {
    var c := Contents(ph, pa);
    assert (c[..off] + bytes + c[off + |bytes|..])[off + i] == bytes[i];
  }

  /** WriteBytes changes no other page. */
  lemma WriteBytesOther(ph: Phys, pa: bv32, off: nat, bytes: seq<bv8>, q: bv32)
    requires off + |bytes| <= PGSIZE && q != pa
    ensures Contents(WriteBytes(ph, pa, off, bytes), q) == Contents(ph, q)
  {
  }

  /** The page tables of the count pages from page n all exist. */
  predicate TablesFor(pd: PageDir, n: nat, count: nat)
  {
    forall j :: n <= j < n + count ==> Pdx(j) in pd.tables
  }

  /**
   * How far copyout's first step reaches: from offset off in a page, k of
   * the len bytes fit, and the rest start a page further on.
   */
  function Chunk(off: nat, len: nat): nat
    requires off < PGSIZE
  {
    if PGSIZE - off > len then len else PGSIZE - off
  }

  /** The number of pages that len bytes from offset off of a page touch, one chunk at a time. */
  function Touched(off: nat, len: nat): nat
    requires off < PGSIZE
    decreases len
  {
    if len == 0 then 0 else 1 + Touched(0, len - Chunk(off, len))
  }

  /** Touched counts the pages from PGROUNDDOWN(va) up to PGROUNDUP(va + len). */
  lemma {:induction false} TouchedPages(off: nat, len: nat)
    requires off < PGSIZE && 0 < len
    ensures Touched(off, len) == Pages(off + len)
    decreases len
  {
    if PGSIZE - off > len {
      assert Pages(off + len) == 1;
    } else {
      var x := len - (PGSIZE - off);
      assert off + len == x + PGSIZE;
      assert Pages(x + PGSIZE) == Pages(x) + 1;
      if x > 0 {
        TouchedPages(0, x);
      }
    }
  }

  /** Outcome of copyout: 0 (ok) or -1, and the memory after it, holding every byte already copied. */
  datatype CopiedOut = CopiedOut(ok: bool, ph: Phys)

  /** What uva2ka gives for each of the count pages from page n. */
  function FramesOf(pd: PageDir, n: nat, count: nat): (r: seq<Option<bv32>>)
    requires TablesFor(pd, n, count)
    ensures |r| == count
    ensures forall t :: 0 <= t < count ==> r[t] == Uva2ka(pd, n + t)
    decreases count
  {
    if count == 0 then [] else [Uva2ka(pd, n)] + FramesOf(pd, n + 1, count - 1)
  }

  /**
   * copyout's loop over the frames of the pages it touches, from offset off
   * of the first: each step copies as much of buf as fits in the page, the
   * next step starts at offset 0 of the next page, and a page without a
   * frame stops it with -1, keeping the bytes already copied.
   */
  function CopyInto(frames: seq<Option<bv32>>, ph: Phys, off: nat, buf: seq<bv8>): (r: CopiedOut)
    requires off < PGSIZE && Touched(off, |buf|) <= |frames|
    ensures r.ph.free == ph.free
    decreases |buf|
  {
    if |buf| == 0 then CopiedOut(true, ph)
    else
      match frames[0]
      case None => CopiedOut(false, ph)
      case Some(pa) =>
        var k := Chunk(off, |buf|);
        CopyInto(frames[1..], WriteBytes(ph, pa, off, buf[..k]), 0, buf[k..])
  }

  /** copyout (kernel/vm.c:389-410) from offset off of page n, through uva2ka. */
  function CopyOutFrom(pd: PageDir, ph: Phys, n: nat, off: nat, buf: seq<bv8>): CopiedOut
    requires off < PGSIZE && TablesFor(pd, n, Touched(off, |buf|))
  {
    CopyInto(FramesOf(pd, n, Touched(off, |buf|)), ph, off, buf)
  }

  /** One step of copyout: the frames of the pages after the first. */
  lemma FramesRest(pd: PageDir, n: nat, off: nat, buf: seq<bv8>)
    requires off < PGSIZE && TablesFor(pd, n, Touched(off, |buf|)) && 0 < |buf|
    ensures TablesFor(pd, n + 1, Touched(0, |buf| - Chunk(off, |buf|)))
    ensures FramesOf(pd, n, Touched(off, |buf|))[1..]
      == FramesOf(pd, n + 1, Touched(0, |buf| - Chunk(off, |buf|)))
  {
    var count := Touched(off, |buf|);
    assert count == 1 + Touched(0, |buf| - Chunk(off, |buf|));
    forall j | n + 1 <= j < n + count
      ensures Pdx(j) in pd.tables
    {
    }
  }

  /**
   * copyout (kernel/vm.c:389-410), proved against CopyOutFrom. Every page
   * it touches must have its page table: uva2ka reads through walkpgdir's
   * result unchecked. The loop's va0 = PGROUNDDOWN(va) is page n and
   * va - va0 is off.
   */
  method CopyOut(pd: PageDir, ph: Phys, va: nat, buf: seq<bv8>) returns (r: int, after: Phys)
    requires TablesFor(pd, va / PGSIZE, Touched(va % PGSIZE, |buf|))
    ensures r == 0 || r == -1
    ensures CopiedOut(r == 0, after) == CopyOutFrom(pd, ph, va / PGSIZE, va % PGSIZE, buf)
  {
    var n: nat, off: nat := va / PGSIZE, va % PGSIZE;
    var rest := buf;
    after := ph;
    ghost var spec := CopyOutFrom(pd, ph, n, off, buf);
    while |rest| > 0
      invariant off < PGSIZE && TablesFor(pd, n, Touched(off, |rest|))
      invariant CopyOutFrom(pd, after, n, off, rest) == spec
      decreases |rest|
    {
      var pa0 := Uva2ka(pd, n);
      if pa0.None? {
        return -1, after;
      }
      var k := PGSIZE - off;
      if k > |rest| {
        k := |rest|;
      }
      FramesRest(pd, n, off, rest);
      after := WriteBytes(after, pa0.value, off, rest[..k]);
      rest := rest[k..];
      n, off := n + 1, 0;
    }
    return 0, after;
  }

  /** CopyInto fails exactly when one of the pages it touches has no frame. */
  lemma {:induction false} CopyIntoFails(frames: seq<Option<bv32>>, ph: Phys, off: nat, buf: seq<bv8>)
    requires off < PGSIZE && Touched(off, |buf|) <= |frames|
    ensures !CopyInto(frames, ph, off, buf).ok <==>
      exists t :: 0 <= t < Touched(off, |buf|) && frames[t].None?
    decreases |buf|
  {
    if |buf| > 0 {
      var k := Chunk(off, |buf|);
      assert Touched(off, |buf|) == 1 + Touched(0, |buf| - k);
      if frames[0].Some? {
        var w := WriteBytes(ph, frames[0].value, off, buf[..k]);
        CopyIntoFails(frames[1..], w, 0, buf[k..]);
        if exists t :: 0 <= t < Touched(off, |buf|) && frames[t].None? {
          var t :| 0 <= t < Touched(off, |buf|) && frames[t].None?;
          assert frames[1..][t - 1].None?;
        }
        if exists t :: 0 <= t < Touched(0, |buf| - k) && frames[1..][t].None? {
          var t :| 0 <= t < Touched(0, |buf| - k) && frames[1..][t].None?;
          assert frames[t + 1].None?;
        }
      } else {
        assert frames[0].None?;
      }
    }
  }

  /** copyout returns -1 exactly when one of the pages it touches fails uva2ka. */
  lemma CopyOutFails(pd: PageDir, ph: Phys, n: nat, off: nat, buf: seq<bv8>)
    requires off < PGSIZE && TablesFor(pd, n, Touched(off, |buf|))
    ensures !CopyOutFrom(pd, ph, n, off, buf).ok <==>
      exists j :: n <= j < n + Touched(off, |buf|) && Uva2ka(pd, j).None?
  {
    var frames := FramesOf(pd, n, Touched(off, |buf|));
    CopyIntoFails(frames, ph, off, buf);
    if exists j :: n <= j < n + Touched(off, |buf|) && Uva2ka(pd, j).None? {
      var j :| n <= j < n + Touched(off, |buf|) && Uva2ka(pd, j).None?;
      assert frames[j - n].None?;
    }
  }

  /** The frames of the count pages from page n are pairwise distinct. */
  predicate DistinctFrames(pd: PageDir, n: nat, count: nat)
    requires TablesFor(pd, n, count)
  {
    forall j1, j2 :: n <= j1 < j2 < n + count ==> Uva2ka(pd, j1) != Uva2ka(pd, j2)
  }

  /** CopyInto writes only the frames of the pages it touches. */
  lemma {:induction false} CopyIntoKeeps(frames: seq<Option<bv32>>, ph: Phys, off: nat, buf: seq<bv8>, q: bv32)
    requires off < PGSIZE && Touched(off, |buf|) <= |frames|
    requires forall t :: 0 <= t < Touched(off, |buf|) ==> frames[t] != Some(q)
    ensures Contents(CopyInto(frames, ph, off, buf).ph, q) == Contents(ph, q)
    decreases |buf|
  {
    if |buf| > 0 {
      var k := Chunk(off, |buf|);
      assert Touched(off, |buf|) == 1 + Touched(0, |buf| - k);
      if frames[0].Some? {
        var w := WriteBytes(ph, frames[0].value, off, buf[..k]);
        WriteBytesOther(ph, frames[0].value, off, buf[..k], q);
        forall t | 0 <= t < Touched(0, |buf| - k)
          ensures frames[1..][t] != Some(q)
        {
          assert frames[1..][t] == frames[t + 1];
        }
        CopyIntoKeeps(frames[1..], w, 0, buf[k..], q);
      }
    }
  }

  /** copyout writes only the frames of the pages it touches. */
  lemma CopyOutKeeps(pd: PageDir, ph: Phys, n: nat, off: nat, buf: seq<bv8>, q: bv32)
    requires off < PGSIZE && TablesFor(pd, n, Touched(off, |buf|))
    requires forall j :: n <= j < n + Touched(off, |buf|) ==> Uva2ka(pd, j) != Some(q)
    ensures Contents(CopyOutFrom(pd, ph, n, off, buf).ph, q) == Contents(ph, q)
  {
    var frames := FramesOf(pd, n, Touched(off, |buf|));
    forall t | 0 <= t < Touched(off, |buf|)
      ensures frames[t] != Some(q)
    {
      assert frames[t] == Uva2ka(pd, n + t);
    }
    CopyIntoKeeps(frames, ph, off, buf, q);
  }

  /**
   * Where byte i from offset off of a page lies, as a page count from that
   * page and an offset: in that page when off + i < PGSIZE, else one page
   * further than byte off + i - PGSIZE from offset 0.
   */
  function Spot(off: nat, i: nat): (nat, nat)
    requires off < PGSIZE
    decreases i
  {
    if off + i < PGSIZE then (0, off + i)
    else
      var s := Spot(0, off + i - PGSIZE);
      (s.0 + 1, s.1)
  }

  /** Spot is division and remainder by PGSIZE. */
  lemma {:induction false} SpotDivMod(off: nat, i: nat)
    requires off < PGSIZE
    ensures Spot(off, i) == ((off + i) / PGSIZE, (off + i) % PGSIZE)
    decreases i
  {
    if off + i >= PGSIZE {
      SpotDivMod(0, off + i - PGSIZE);
      var x := off + i;
      assert x / PGSIZE == (x - PGSIZE) / PGSIZE + 1 && x % PGSIZE == (x - PGSIZE) % PGSIZE;
    }
  }

  /** Frames that are present and pairwise distinct. */
  predicate DistinctIn(frames: seq<Option<bv32>>, count: nat)
    requires count <= |frames|
  {
    forall t1, t2 :: 0 <= t1 < t2 < count ==> frames[t1] != frames[t2]
  }

  /** A successful CopyInto over distinct frames leaves its first bytes in the first frame. */
  lemma CopyIntoWritesFirst(frames: seq<Option<bv32>>, ph: Phys, off: nat, buf: seq<bv8>, after: Phys, i: nat)
    requires off < PGSIZE && Touched(off, |buf|) <= |frames| && DistinctIn(frames, Touched(off, |buf|))
    requires CopyInto(frames, ph, off, buf) == CopiedOut(true, after)
    requires i < Chunk(off, |buf|) && i < |buf|
    ensures frames[0].Some?
    ensures Contents(after, frames[0].value)[off + i] == buf[i]
  {
    var k := Chunk(off, |buf|);
    assert Touched(off, |buf|) == 1 + Touched(0, |buf| - k);
    assert frames[0].Some?;
    var pa := frames[0].value;
    var w := WriteBytes(ph, pa, off, buf[..k]);
    forall t | 0 <= t < Touched(0, |buf| - k)
      ensures frames[1..][t] != Some(pa)
    {
      assert frames[1..][t] == frames[t + 1];
    }
    CopyIntoKeeps(frames[1..], w, 0, buf[k..], pa);
    WriteBytesAt(ph, pa, off, buf[..k], i);
  }

  /** A successful CopyInto over distinct frames puts byte i of buf where Spot says. */
  lemma {:induction false} CopyIntoWrites(frames: seq<Option<bv32>>, ph: Phys, off: nat, buf: seq<bv8>, after: Phys, i: nat)
    requires off < PGSIZE && Touched(off, |buf|) <= |frames| && DistinctIn(frames, Touched(off, |buf|))
    requires CopyInto(frames, ph, off, buf) == CopiedOut(true, after)
    requires i < |buf|
    ensures Spot(off, i).0 < Touched(off, |buf|) && Spot(off, i).1 < PGSIZE
    ensures frames[Spot(off, i).0].Some?
    ensures Contents(after, frames[Spot(off, i).0].value)[Spot(off, i).1] == buf[i]
    decreases |buf|
  {
    var k := Chunk(off, |buf|);
    assert Touched(off, |buf|) == 1 + Touched(0, |buf| - k);
    if i < k {
      assert Spot(off, i) == (0, off + i);
      CopyIntoWritesFirst(frames, ph, off, buf, after, i);
    } else {
      assert k == PGSIZE - off;
      assert Spot(off, i) == (Spot(0, i - k).0 + 1, Spot(0, i - k).1);
      assert frames[0].Some?;
      var w := WriteBytes(ph, frames[0].value, off, buf[..k]);
      var rest := frames[1..];
      forall t1, t2 | 0 <= t1 < t2 < Touched(0, |buf| - k)
        ensures rest[t1] != rest[t2]
      {
        assert rest[t1] == frames[t1 + 1] && rest[t2] == frames[t2 + 1];
      }
      CopyIntoWrites(rest, w, 0, buf[k..], after, i - k);
      assert rest[Spot(0, i - k).0] == frames[Spot(off, i).0];
      assert buf[k..][i - k] == buf[i];
    }
  }

  /**
   * A successful copyout over pages with distinct frames leaves byte i of
   * buf at offset (off+i) % PGSIZE of the frame of page n + (off+i) / PGSIZE,
   * the page that byte's user address lies in.
   */
  lemma CopyOutWrites(pd: PageDir, ph: Phys, n: nat, off: nat, buf: seq<bv8>, i: nat)
    requires off < PGSIZE && TablesFor(pd, n, Touched(off, |buf|))
    requires DistinctFrames(pd, n, Touched(off, |buf|))
    requires CopyOutFrom(pd, ph, n, off, buf).ok
    requires i < |buf|
    ensures (off + i) / PGSIZE < Touched(off, |buf|)
    ensures Uva2ka(pd, n + (off + i) / PGSIZE).Some?
    ensures Contents(CopyOutFrom(pd, ph, n, off, buf).ph, Uva2ka(pd, n + (off + i) / PGSIZE).value)[(off + i) % PGSIZE]
      == buf[i]
  {
    var count := Touched(off, |buf|);
    var frames := FramesOf(pd, n, count);
    forall t1, t2 | 0 <= t1 < t2 < count
      ensures frames[t1] != frames[t2]
    {
      assert frames[t1] == Uva2ka(pd, n + t1) && frames[t2] == Uva2ka(pd, n + t2);
    }
    CopyIntoWrites(frames, ph, off, buf, CopyOutFrom(pd, ph, n, off, buf).ph, i);
    SpotDivMod(off, i);
    assert frames[(off + i) / PGSIZE] == Uva2ka(pd, n + (off + i) / PGSIZE);
  }
}
