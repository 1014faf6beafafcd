/**
 * The kernel's global tables that the shared-memory code works on: the
 * registry of named shared-memory objects (kernel/shmem_structs.h:8-22,
 * kernel/shmem.c:13), the process table with each process's 16 local
 * shared-memory slots, physical memory, and the invariant that ties the
 * reference counts of the registry to the slots bound to it.
 */
module KernelState {
  import opened Wrappers
  import opened Vm

  /** Capacity of an object's name buffer, terminator included. */
  const NAME_SZ: nat := 14
  /** Entries of the global registry. */
  const GLOBAL_NUMBER_OF_SHM_OBJ: nat := 64
  /** Slots of a process's local table (the literal 16 of the source's loops). */
  const NSLOTS: nat := 16
  /** Page handles an object can hold (memory[32]). */
  const NMEMORY: nat := 32

  /**
   * The constants the shared-memory code takes from headers that are not
   * part of this model: VIRT_SHM_MEM, SHM_OBJ_MAX_SIZE, MAX_PAGES and
   * LOCAL_NUMBER_OF_SHM_OBJ.
   */
  datatype Config = Config(virtShmMem: nat, objMaxSize: nat, maxPages: nat, localSlots: nat)
  {
    /**
     * What the layout needs of them: an object fits its memory[] and its
     * window, windows are whole pages, the range checks stay inside the
     * 16 slots, and every window lies below KERNBASE.
     */
    predicate Ok()
    {
      maxPages <= NMEMORY && maxPages * PGSIZE <= objMaxSize && objMaxSize % PGSIZE == 0 &&
      localSlots <= NSLOTS && Pages(virtShmMem) * PGSIZE + NSLOTS * objMaxSize <= KERNBASE
    }
  }

  /** The first page of slot d's window: PGROUNDUP(VIRT_SHM_MEM) + d*SHM_OBJ_MAX_SIZE, in pages. */
  function BasePage(cfg: Config, d: nat): nat
  {
    Pages(cfg.virtShmMem) + d * (cfg.objMaxSize / PGSIZE)
  }

  /** The address of slot d's window. */
  function ShmBase(cfg: Config, d: nat): nat
  {
    Pages(cfg.virtShmMem) * PGSIZE + d * cfg.objMaxSize
  }

  /** The window of slot d starts on page BasePage(cfg, d) and holds SHM_OBJ_MAX_SIZE bytes below KERNBASE. */
  lemma ShmBasePage(cfg: Config, d: nat)
    requires cfg.Ok() && d < NSLOTS
    ensures ShmBase(cfg, d) == BasePage(cfg, d) * PGSIZE
    ensures ShmBase(cfg, d) + cfg.objMaxSize <= KERNBASE
  {
    var q := cfg.objMaxSize / PGSIZE;
    assert cfg.objMaxSize == q * PGSIZE;
    MulAssoc(d, q, PGSIZE);
    MulLe(d + 1, NSLOTS, cfg.objMaxSize);
  }

  lemma MulAssoc(a: nat, b: nat, c: nat)
    ensures a * (b * c) == (a * b) * c
  {
  }

  lemma MulLe(a: nat, b: nat, c: nat)
    requires a <= b
    ensures a * c <= b * c
  {
  }

  /**
   * A registry entry (struct shared_memory_object). The name is the
   * characters before its terminator, "" for a free entry; memory holds
   * the physical frames of its pages (the source keeps their kernel
   * virtual addresses, P2V of the same frames).
   */
  datatype ShmObject = ShmObject(id: nat, name: string, memory: seq<bv32>, refCount: int, allocatedPages: int, size: nat)

  /** A local slot (struct shared_memory_object_local); obj is the index of the bound registry entry. */
  datatype LocalSlot = LocalSlot(va: nat, flags: bv32, obj: Option<nat>)

  /** A slot bound to nothing, as clean_local_shared_mem_obj leaves it. */
  const Unbound := LocalSlot(0, 0, None)

  datatype ProcState = UNUSED | EMBRYO | SLEEPING | RUNNABLE | RUNNING | ZOMBIE

  /**
   * A sleep channel: the address of process entry p (what wait sleeps
   * on and exit wakes), or any other kernel address.
   */
  datatype Chan = OnProc(p: nat) | OnAddr(a: nat)

  /**
   * The fields of struct proc the model uses. parent is the index of the
   * parent's entry, chan the channel a sleeping process waits on, kstack
   * the frame of the kernel stack (0 when none).
   */
  datatype Proc = Proc(state: ProcState, pid: int, parent: Option<nat>, killed: bool, chan: Chan,
                       kstack: bv32, name: string, pgdir: PageDir, sz: nat, slots: seq<LocalSlot>)

  /** The kernel's tables: registry, process table, physical memory, nextpid and initproc. */
  datatype Sys = Sys(objs: seq<ShmObject>, procs: seq<Proc>, phys: Phys, nextpid: int, initproc: nat)

  /** The number of slots bound to entry g. */
  function SlotRefs(slots: seq<LocalSlot>, g: nat): nat
  {
    if slots == [] then 0 else SlotRefs(slots[..|slots| - 1], g) + (if slots[|slots| - 1].obj == Some(g) then 1 else 0)
  }

  /** The number of slots of all processes bound to entry g. */
  function Refs(procs: seq<Proc>, g: nat): nat
  {
    if procs == [] then 0 else Refs(procs[..|procs| - 1], g) + SlotRefs(procs[|procs| - 1].slots, g)
  }

  /** A slot's binding changes its table's count for g by the difference of the two bindings. */
  lemma {:induction false} SlotRefsUpdate(slots: seq<LocalSlot>, d: nat, s: LocalSlot, g: nat)
    requires d < |slots|
    ensures SlotRefs(slots[d := s], g) + (if slots[d].obj == Some(g) then 1 else 0)
      == SlotRefs(slots, g) + (if s.obj == Some(g) then 1 else 0)
    decreases |slots|
  {
    var t := slots[d := s];
    var k := |slots| - 1;
    if d < k {
      assert t[..k] == slots[..k][d := s];
      SlotRefsUpdate(slots[..k], d, s, g);
    } else {
      assert t[..k] == slots[..k];
    }
  }

  /** A table whose slots are all unbound counts no reference. */
  lemma {:induction false} SlotRefsNone(slots: seq<LocalSlot>, g: nat)
    requires forall d :: 0 <= d < |slots| ==> slots[d].obj.None?
    ensures SlotRefs(slots, g) == 0
    decreases |slots|
  {
    if slots != [] {
      SlotRefsNone(slots[..|slots| - 1], g);
    }
  }

  /** A slot bound to g counts. */
  lemma {:induction false} SlotRefsBound(slots: seq<LocalSlot>, d: nat, g: nat)
    requires d < |slots| && slots[d].obj == Some(g)
    ensures SlotRefs(slots, g) > 0
    decreases |slots|
  {
    if d < |slots| - 1 {
      SlotRefsBound(slots[..|slots| - 1], d, g);
    }
  }

  /** Replacing process p's slots changes the count for g by the difference of the two tables' counts. */
  lemma {:induction false} RefsUpdate(procs: seq<Proc>, p: nat, q: Proc, g: nat)
    requires p < |procs|
    ensures Refs(procs[p := q], g) + SlotRefs(procs[p].slots, g) == Refs(procs, g) + SlotRefs(q.slots, g)
    decreases |procs|
  {
    var t := procs[p := q];
    var k := |procs| - 1;
    if p < k {
      assert t[..k] == procs[..k][p := q];
      RefsUpdate(procs[..k], p, q, g);
    } else {
      assert t[..k] == procs[..k];
    }
  }

  /** A slot of any process bound to g counts. */
  lemma {:induction false} RefsBound(procs: seq<Proc>, p: nat, d: nat, g: nat)
    requires p < |procs| && d < |procs[p].slots| && procs[p].slots[d].obj == Some(g)
    ensures Refs(procs, g) > 0
    decreases |procs|
  {
    if p < |procs| - 1 {
      RefsBound(procs[..|procs| - 1], p, d, g);
    } else {
      SlotRefsBound(procs[p].slots, d, g);
    }
  }

  /**
   * Process p replaced by q whose slots are p's with slot d rebound to
   * slot: the count for g moves by the difference of the two bindings.
   */
  lemma RefsRebind(procs: seq<Proc>, p: nat, q: Proc, d: nat, slot: LocalSlot, g: nat)
    requires p < |procs| && d < |procs[p].slots| && q.slots == procs[p].slots[d := slot]
    ensures Refs(procs[p := q], g) + (if procs[p].slots[d].obj == Some(g) then 1 else 0)
      == Refs(procs, g) + (if slot.obj == Some(g) then 1 else 0)
  {
    RefsUpdate(procs, p, q, g);
    SlotRefsUpdate(procs[p].slots, d, slot, g);
  }

  /** Processes that change nothing but their non-slot fields keep every count. */
  lemma {:induction false} RefsSameSlots(procs: seq<Proc>, procs': seq<Proc>, g: nat)
    requires |procs| == |procs'| && forall p :: 0 <= p < |procs| ==> procs'[p].slots == procs[p].slots
    ensures Refs(procs', g) == Refs(procs, g)
    decreases |procs|
  {
    if procs != [] {
      RefsSameSlots(procs[..|procs| - 1], procs'[..|procs| - 1], g);
    }
  }

  /**
   * The life cycle of an entry: a free entry (no reference) has no name,
   * no size and no pages; a named one is referenced; allocated_pages + 1
   * is the number of pages its size needs, at most MAX_PAGES.
   */
  predicate ObjectOk(cfg: Config, o: ShmObject)
  {
    |o.memory| == NMEMORY &&
    (o.refCount == 0 <==> o.name == "") &&
    (o.refCount == 0 ==> o.size == 0) &&
    o.size <= cfg.maxPages * PGSIZE &&
    o.allocatedPages + 1 == Pages(o.size)
  }

  /**
   * A slot is unbound and clean, or bound to an entry of the registry; a
   * mapped slot (va != 0) is bound and mapped at its own window.
   */
  predicate SlotOk(cfg: Config, nobjs: nat, d: nat, s: LocalSlot)
  {
    (s.obj.None? ==> s == Unbound) &&
    (s.obj.Some? ==> s.obj.value < nobjs) &&
    (s.va != 0 ==> s.va == ShmBase(cfg, d))
  }

  /** A process has 16 well-formed slots, all unbound when its entry is UNUSED. */
  predicate ProcOk(cfg: Config, nobjs: nat, p: Proc)
  {
    |p.slots| == NSLOTS &&
    (forall d :: 0 <= d < NSLOTS ==> SlotOk(cfg, nobjs, d, p.slots[d])) &&
    (p.state == UNUSED ==> forall d :: 0 <= d < NSLOTS ==> p.slots[d] == Unbound)
  }

  /** The kernel invariant: every entry's ref_count is the number of slots bound to it. */
  predicate Consistent(cfg: Config, s: Sys)
  {
    |s.objs| == GLOBAL_NUMBER_OF_SHM_OBJ &&
    (forall g :: 0 <= g < |s.objs| ==> ObjectOk(cfg, s.objs[g]) && s.objs[g].refCount == Refs(s.procs, g)) &&
    (forall p :: 0 <= p < |s.procs| ==> ProcOk(cfg, |s.objs|, s.procs[p])) &&
    s.initproc < |s.procs|
  }

  /** In a consistent kernel a bound slot names a referenced, named entry. */
  lemma BoundNamed(cfg: Config, s: Sys, p: nat, d: nat)
    requires Consistent(cfg, s) && p < |s.procs| && d < NSLOTS && s.procs[p].slots[d].obj.Some?
    ensures s.procs[p].slots[d].obj.value < |s.objs|
    ensures s.objs[s.procs[p].slots[d].obj.value].refCount > 0
    ensures s.objs[s.procs[p].slots[d].obj.value].name != ""
  {
    assert ProcOk(cfg, |s.objs|, s.procs[p]);
    assert SlotOk(cfg, |s.objs|, d, s.procs[p].slots[d]);
    RefsBound(s.procs, p, d, s.procs[p].slots[d].obj.value);
  }

  /**
   * The kernel's tables, held in place: the registry and the process table
   * are arrays updated element by element, memory and the pid counter are
   * fields.
   */
  class Kernel {
    const cfg: Config
    const objs: array<ShmObject>
    const procs: array<Proc>
    var phys: Phys
    var nextpid: int
    var initproc: nat

    /** The tables as a value. */
    function State(): Sys
      reads this, objs, procs
    {
      Sys(objs[..], procs[..], phys, nextpid, initproc)
    }

    predicate Valid()
      reads this, objs, procs
    {
      cfg.Ok() && Consistent(cfg, State())
    }

    /**
     * A kernel whose registry entries are still to be set up by
     * init_shared_mem_objects, with n process entries, all UNUSED.
     */
    constructor (cfg: Config, n: nat, phys: Phys)
      requires n > 0
      ensures this.cfg == cfg && this.phys == phys && nextpid == 1 && initproc == 0
      ensures fresh(objs) && fresh(procs)
      ensures objs.Length == GLOBAL_NUMBER_OF_SHM_OBJ && procs.Length == n
      ensures forall p :: 0 <= p < n ==> procs[p] == Proc(UNUSED, 0, None, false, OnAddr(0), 0, "", PageDir(map[]), 0, seq(NSLOTS, _ => Unbound))
    {
      this.cfg := cfg;
      this.phys := phys;
      nextpid := 1;
      initproc := 0;
      objs := new ShmObject[GLOBAL_NUMBER_OF_SHM_OBJ](_ => ShmObject(0, "", seq(NMEMORY, _ => 0), 0, 0, 0));
      procs := new Proc[n](_ => Proc(UNUSED, 0, None, false, OnAddr(0), 0, "", PageDir(map[]), 0, seq(NSLOTS, _ => Unbound)));
    }
  }
}
