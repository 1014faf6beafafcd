/**
 * The named shared-memory registry of kernel/shmem.c. An object goes from
 * free (no name) to open (shm_open names it and counts the slot bound to
 * it), to sized (shm_trunc gives it its pages, once), and back to free when
 * the last slot bound to it is closed. shm_map maps its pages at the
 * window of the slot, PGROUNDUP(VIRT_SHM_MEM) + d*SHM_OBJ_MAX_SIZE.
 *
 * Each operation is a function on the kernel's tables (Sys) for the
 * calling process cur, proved to keep the invariant Consistent and to do
 * what the source promises; the methods at the end run the source's loops
 * on a Kernel and are proved equal to those functions.
 */
module Shmem {
  import opened Wrappers
  import opened Vm
  import opened KernelState

  /** Outcome of a system call on the tables: its return value and the tables after it, or a kernel panic. */
  datatype Step = Step(r: int, s: Sys) | Panic(why: string)

  // ---------------------------------------------------------------------
  // round_up_division

  /**
   * round_up_division (kernel/shmem.c:16-21): the quotient, truncated
   * toward zero as C's `/` does, plus one when C's `%` leaves a remainder.
   */
  function RoundUpDivision(x: int, y: int): int
    requires y > 0
  {
    var whole := if x >= 0 then x / y else -((-x) / y);
    if x - whole * y != 0 then whole + 1 else whole
  }

  /** For x >= 0 it is ceiling division: the least multiple of y at or above x, divided by y. */
  lemma RoundUpDivisionCeil(x: nat, y: nat)
    requires y > 0
    ensures RoundUpDivision(x, y) >= 0
    ensures x <= RoundUpDivision(x, y) * y < x + y
  {
    var q, m := x / y, x % y;
    assert x == q * y + m && 0 <= m < y;
    assert q >= 0;
    if m != 0 {
      assert (q + 1) * y == q * y + y;
    }
  }

  /** With y = PGSIZE it counts the pages of x bytes. */
  lemma RoundUpDivisionPages(x: nat)
    ensures RoundUpDivision(x, PGSIZE) == Pages(x)
  {
    RoundUpDivisionCeil(x, PGSIZE);
    assert Pages(x) * PGSIZE <= x + PGSIZE - 1 < (Pages(x) + 1) * PGSIZE;
  }

  // ---------------------------------------------------------------------
  // The searches of shm_open

  /** A local table of 16 slots whose bound slots name entries of a registry of nobjs entries. */
  predicate SlotsIn(slots: seq<LocalSlot>, nobjs: nat)
  {
    |slots| == NSLOTS && forall d :: 0 <= d < NSLOTS && slots[d].obj.Some? ==> slots[d].obj.value < nobjs
  }

  /** The slot is bound to an entry called name. */
  predicate HoldsName(objs: seq<ShmObject>, slot: LocalSlot, name: string)
  {
    slot.obj.Some? && slot.obj.value < |objs| && objs[slot.obj.value].name == name
  }

  /** The loop of check_if_exists (kernel/shmem.c:78-91) from slot i. */
  function NamedSlotFrom(objs: seq<ShmObject>, slots: seq<LocalSlot>, name: string, i: nat): (r: int)
    requires SlotsIn(slots, |objs|) && i <= NSLOTS
    ensures -1 <= r < NSLOTS
    decreases NSLOTS - i
  {
    if i == NSLOTS then -1
    else if slots[i].obj.Some? && objs[slots[i].obj.value].name == name then i
    else NamedSlotFrom(objs, slots, name, i + 1)
  }

  /** check_if_exists finds the first slot from i bound to an entry called name, and -1 only when there is none. */
  lemma {:induction false} NamedSlotFirst(objs: seq<ShmObject>, slots: seq<LocalSlot>, name: string, i: nat)
    requires SlotsIn(slots, |objs|) && i <= NSLOTS
    ensures NamedSlotFrom(objs, slots, name, i) == -1 <==>
      forall d :: i <= d < NSLOTS ==> !HoldsName(objs, slots[d], name)
    ensures NamedSlotFrom(objs, slots, name, i) != -1 ==>
      var r := NamedSlotFrom(objs, slots, name, i);
      i <= r < NSLOTS && HoldsName(objs, slots[r], name) &&
      forall d :: i <= d < r ==> !HoldsName(objs, slots[d], name)
    decreases NSLOTS - i
  {
    if i < NSLOTS && !HoldsName(objs, slots[i], name) {
      NamedSlotFirst(objs, slots, name, i + 1);
    }
  }

  /** The loop of find_free_slot_local (kernel/shmem.c:93-100) from slot i. */
  function FreeSlotFrom(slots: seq<LocalSlot>, i: nat): (r: int)
    requires |slots| == NSLOTS && i <= NSLOTS
    ensures -1 <= r < NSLOTS
    decreases NSLOTS - i
  {
    if i == NSLOTS then -1
    else if slots[i].obj.None? then i
    else FreeSlotFrom(slots, i + 1)
  }

  /** find_free_slot_local finds the lowest unbound slot from i, and -1 only when every one is bound. */
  lemma {:induction false} FreeSlotFirst(slots: seq<LocalSlot>, i: nat)
    requires |slots| == NSLOTS && i <= NSLOTS
    ensures FreeSlotFrom(slots, i) == -1 <==> forall d :: i <= d < NSLOTS ==> slots[d].obj.Some?
    ensures FreeSlotFrom(slots, i) != -1 ==>
      var r := FreeSlotFrom(slots, i);
      i <= r < NSLOTS && slots[r].obj.None? && forall d :: i <= d < r ==> slots[d].obj.Some?
    decreases NSLOTS - i
  {
    if i < NSLOTS && slots[i].obj.Some? {
      FreeSlotFirst(slots, i + 1);
    }
  }

  /** Result of fetch_shared_memory_object: the entry index (-1 for none) and *exist. */
  datatype Fetched = Fetched(index: int, exist: bool)

  /**
   * The loop of fetch_shared_memory_object (kernel/shmem.c:55-76) from
   * entry i, with firstFree the first entry without a name seen so far.
   */
  function FetchFrom(objs: seq<ShmObject>, name: string, i: nat, firstFree: int): (r: Fetched)
    requires i <= |objs| && -1 <= firstFree < |objs|
    ensures -1 <= r.index < |objs| && (r.exist ==> r.index >= 0)
    decreases |objs| - i
  {
    if i == |objs| then Fetched(firstFree, false)
    else if objs[i].name == name then Fetched(i, true)
    else FetchFrom(objs, name, i + 1, if firstFree < 0 && objs[i].name == "" then i else firstFree)
  }

  /**
   * fetch_shared_memory_object returns the first entry called name with
   * exist set; failing that the first entry without a name; failing that -1.
   */
  lemma {:induction false} FetchFirst(objs: seq<ShmObject>, name: string, i: nat, firstFree: int)
    requires i <= |objs| && -1 <= firstFree < i
    requires firstFree == -1 ==> forall j :: 0 <= j < i ==> objs[j].name != ""
    requires firstFree != -1 ==> objs[firstFree].name == "" && forall j :: 0 <= j < firstFree ==> objs[j].name != ""
    requires forall j :: 0 <= j < i ==> objs[j].name != name
    ensures var f := FetchFrom(objs, name, i, firstFree);
      -1 <= f.index < |objs| &&
      (f.exist <==> exists j :: 0 <= j < |objs| && objs[j].name == name) &&
      (f.exist ==> objs[f.index].name == name && forall j :: 0 <= j < f.index ==> objs[j].name != name) &&
      (!f.exist && f.index != -1 ==> objs[f.index].name == "" && forall j :: 0 <= j < f.index ==> objs[j].name != "") &&
      (!f.exist && f.index == -1 ==> forall j :: 0 <= j < |objs| ==> objs[j].name != "")
    decreases |objs| - i
  {
    if i < |objs| && objs[i].name != name {
      FetchFirst(objs, name, i + 1, if firstFree < 0 && objs[i].name == "" then i else firstFree);
    }
  }

  // ---------------------------------------------------------------------
  // shm_open

  /** The registry and the local table are fit for the searches: cur exists and its slots name entries. */
  predicate Callable(s: Sys, cur: nat)
  {
    cur < |s.procs| && SlotsIn(s.procs[cur].slots, |s.objs|)
  }

  /** s with the local table of process cur replaced. */
  function WithSlots(s: Sys, cur: nat, slots: seq<LocalSlot>): Sys
    requires cur < |s.procs|
  {
    s.(procs := s.procs[cur := s.procs[cur].(slots := slots)])
  }

  /** An entry with one more reference. */
  function Counted(o: ShmObject): ShmObject
  {
    o.(refCount := o.refCount + 1)
  }

  /** An entry with one reference fewer. */
  function Released(o: ShmObject): ShmObject
  {
    o.(refCount := o.refCount - 1)
  }

  /** An entry whose last reference is gone: no name, no size, no pages. */
  function Emptied(o: ShmObject): ShmObject
  {
    o.(refCount := 0, allocatedPages := -1, size := 0, name := "")
  }

  /** edit_shm_obj_on_open: the entry takes name unless it already had it, and counts one more reference. */
  function Claimed(o: ShmObject, name: string, exist: bool): ShmObject
  {
    o.(name := if exist then o.name else name, refCount := o.refCount + 1)
  }

  /**
   * shm_open (kernel/shmem.c:143-161) by process cur: a slot already bound
   * to an entry called name is returned as it is; otherwise the lowest
   * unbound slot is bound to the entry fetch_shared_memory_object finds,
   * which takes the name if it had none and counts one more reference.
   */
  function Open(s: Sys, cur: nat, name: string): Step
    requires Callable(s, cur)
  {
    var slots := s.procs[cur].slots;
    var exist := NamedSlotFrom(s.objs, slots, name, 0);
    if exist >= 0 then Step(exist, s)
    else
      var free := FreeSlotFrom(slots, 0);
      var f := FetchFrom(s.objs, name, 0, -1);
      if free < 0 || f.index < 0 then Step(-1, s)
      else
        Step(free, WithSlots(s, cur, slots[free := slots[free].(obj := Some(f.index))]).(objs :=
          s.objs[f.index := Claimed(s.objs[f.index], name, f.exist)]))
  }

  /** Opening a name one of the caller's slots is bound to returns the first such slot and changes nothing. */
  lemma OpenExisting(s: Sys, cur: nat, name: string, d: nat)
    requires Callable(s, cur) && d < NSLOTS && HoldsName(s.objs, s.procs[cur].slots[d], name)
    ensures Open(s, cur, name).Step? && Open(s, cur, name).s == s
    ensures var r := Open(s, cur, name).r;
      0 <= r <= d && HoldsName(s.objs, s.procs[cur].slots[r], name)
  {
    NamedSlotFirst(s.objs, s.procs[cur].slots, name, 0);
  }

  /**
   * shm_open returns -1 and changes nothing when no slot is bound to name
   * and the caller has no unbound slot, or the registry has neither an
   * entry called name nor one without a name.
   */
  lemma OpenFull(s: Sys, cur: nat, name: string)
    requires Callable(s, cur)
    requires forall d :: 0 <= d < NSLOTS ==> !HoldsName(s.objs, s.procs[cur].slots[d], name)
    requires (forall d :: 0 <= d < NSLOTS ==> s.procs[cur].slots[d].obj.Some?) ||
             (forall g :: 0 <= g < |s.objs| ==> s.objs[g].name != name && s.objs[g].name != "")
    ensures Open(s, cur, name) == Step(-1, s)
  {
    NamedSlotFirst(s.objs, s.procs[cur].slots, name, 0);
    FreeSlotFirst(s.procs[cur].slots, 0);
    FetchFirst(s.objs, name, 0, -1);
  }

  /**
   * A fresh open binds the lowest unbound slot to the first entry called
   * name or else the first entry without a name, which is then called
   * name, and adds exactly one reference to it; nothing else changes.
   */
  lemma OpenFresh(s: Sys, cur: nat, name: string)
    requires Callable(s, cur)
    requires forall d :: 0 <= d < NSLOTS ==> !HoldsName(s.objs, s.procs[cur].slots[d], name)
    requires Open(s, cur, name).Step? && Open(s, cur, name).r != -1
    ensures var r := Open(s, cur, name).r;
      var s' := Open(s, cur, name).s;
      var slots := s.procs[cur].slots;
      0 <= r < NSLOTS && slots[r].obj.None? && (forall d :: 0 <= d < r ==> slots[d].obj.Some?) &&
      exists g :: 0 <= g < |s.objs| &&
        (s.objs[g].name == name || (s.objs[g].name == "" && forall j :: 0 <= j < |s.objs| ==> s.objs[j].name != name)) &&
        (forall j :: 0 <= j < g ==> s.objs[j].name != name && (s.objs[g].name == "" ==> s.objs[j].name != "")) &&
        s'.objs == s.objs[g := Claimed(s.objs[g], name, false)] &&
        s' == WithSlots(s, cur, slots[r := slots[r].(obj := Some(g))]).(objs := s'.objs)
  {
    var slots := s.procs[cur].slots;
    NamedSlotFirst(s.objs, slots, name, 0);
    FreeSlotFirst(slots, 0);
    FetchFirst(s.objs, name, 0, -1);
    var f := FetchFrom(s.objs, name, 0, -1);
    var g := f.index;
    OpenBinds(s, cur, name);
    assert Claimed(s.objs[g], name, f.exist) == Claimed(s.objs[g], name, false);
  }

  // ---------------------------------------------------------------------
  // Freeing an object's pages

  /** s backwards. */
  function Reversed(s: seq<bv32>): seq<bv32>
  {
    if s == [] then [] else Reversed(s[1..]) + [s[0]]
  }

  /**
   * kfree of frames[0], frames[1], ... in turn, as the loops of
   * clean_shm_mem1 (kernel/shmem.c:127-132) and clean_shm_mem
   * (kernel/proc.c:323-327) do: the frames end up on the front of the
   * free list, the last one freed first.
   */
  function FreeFrames(free: FreeList, frames: seq<bv32>): (r: FreeList)
    ensures r == Reversed(frames) + free
    decreases |frames|
  {
    if frames == [] then free
    else
      var r := FreeFrames(Kfree(free, frames[0]), frames[1..]);
      assert Reversed(frames) + free == Reversed(frames[1..]) + ([frames[0]] + free);
      r
  }

  // ---------------------------------------------------------------------
  // shm_trunc

  /** Every entry has its 32 page handles and at most 32 pages, none while it has no size. */
  predicate Shaped(objs: seq<ShmObject>)
  {
    forall g :: 0 <= g < |objs| ==>
      |objs[g].memory| == NMEMORY && -1 <= objs[g].allocatedPages < NMEMORY &&
      (objs[g].size == 0 ==> objs[g].allocatedPages == -1)
  }

  /** A consistent kernel can run the searches for any process and its entries are shaped. */
  lemma ConsistentCallable(cfg: Config, s: Sys, cur: nat)
    requires cfg.Ok() && Consistent(cfg, s) && cur < |s.procs|
    ensures Callable(s, cur) && Shaped(s.objs)
  {
    assert ProcOk(cfg, |s.objs|, s.procs[cur]);
    forall d | 0 <= d < NSLOTS && s.procs[cur].slots[d].obj.Some?
      ensures s.procs[cur].slots[d].obj.value < |s.objs|
    {
      assert SlotOk(cfg, |s.objs|, d, s.procs[cur].slots[d]);
    }
    forall g | 0 <= g < |s.objs|
      ensures -1 <= s.objs[g].allocatedPages < NMEMORY
    {
      assert ObjectOk(cfg, s.objs[g]);
      PagesMono(s.objs[g].size, cfg.maxPages * PGSIZE);
      assert Pages(cfg.maxPages * PGSIZE) == cfg.maxPages;
    }
  }

  /** Outcome of the page loop of shm_trunc: whether it finished, the object and memory after it. */
  datatype Sized = Sized(ok: bool, o: ShmObject, ph: Phys)

  /**
   * The loop of shm_trunc (kernel/shmem.c:215-225) with left pages to go:
   * each page is a zeroed frame from kalloc, recorded at the next index of
   * memory; when kalloc fails, clean_shm_mem1 frees every page recorded
   * and sets allocated_pages back to -1.
   */
  function TruncFrom(o: ShmObject, ph: Phys, left: nat): Sized
    requires |o.memory| == NMEMORY && -1 <= o.allocatedPages && o.allocatedPages + left < NMEMORY
    decreases left
  {
    if left == 0 then Sized(true, o, ph)
    else if ph.free == [] then
      Sized(false, o.(allocatedPages := -1), ph.(free := FreeFrames(ph.free, o.memory[..o.allocatedPages + 1])))
    else
      var k := o.allocatedPages + 1;
      TruncFrom(o.(allocatedPages := k, memory := o.memory[k := ph.free[0]]), TakeZeroed(ph), left - 1)
  }

  /**
   * With enough free frames the loop records the next left frames of the
   * free list after the pages already held, each zeroed, and takes them
   * off the list; nothing else about the object changes.
   */
  lemma {:induction false} TruncFromFills(o: ShmObject, ph: Phys, left: nat)
    requires |o.memory| == NMEMORY && -1 <= o.allocatedPages && o.allocatedPages + left < NMEMORY
    requires left <= |ph.free|
    ensures var t := TruncFrom(o, ph, left);
      var k := o.allocatedPages + 1;
      t.ok && t.o == o.(allocatedPages := o.allocatedPages + left, memory := t.o.memory) &&
      |t.o.memory| == NMEMORY &&
      t.o.memory[..k + left] == o.memory[..k] + ph.free[..left] &&
      t.ph.free == ph.free[left..] &&
      forall i :: 0 <= i < left ==> Contents(t.ph, ph.free[i]) == ZeroPage()
    decreases left, 1
  {
    if left > 0 {
      TruncFromFillsLater(o, ph, left);
    }
  }

  /** The case of TruncFromFills with a page to go: the first frame is recorded, the rest of the loop records the others. */
  lemma {:induction false} TruncFromFillsLater(o: ShmObject, ph: Phys, left: nat)
    requires |o.memory| == NMEMORY && -1 <= o.allocatedPages && o.allocatedPages + left < NMEMORY
    requires 0 < left <= |ph.free|
    ensures var t := TruncFrom(o, ph, left);
      var k := o.allocatedPages + 1;
      t.ok && t.o == o.(allocatedPages := o.allocatedPages + left, memory := t.o.memory) &&
      |t.o.memory| == NMEMORY &&
      t.o.memory[..k + left] == o.memory[..k] + ph.free[..left] &&
      t.ph.free == ph.free[left..] &&
      forall i :: 0 <= i < left ==> Contents(t.ph, ph.free[i]) == ZeroPage()
    decreases left, 0
  {
    var k := o.allocatedPages + 1;
    var o1 := o.(allocatedPages := k, memory := o.memory[k := ph.free[0]]);
    var ph1 := TakeZeroed(ph);
    TruncFromFills(o1, ph1, left - 1);
    var t := TruncFrom(o1, ph1, left - 1);
    assert TruncFrom(o, ph, left) == t;
    FilledPrefix(o.memory, k, ph.free, left, t.o.memory);
    assert ph1.free[left - 1..] == ph.free[left..];
    TruncFromZero(o1, ph1, left - 1, ph.free[0]);
    FilledZeroed(ph.free, left, t.ph);
  }

  /** Recording frame free[0] at index k and then left - 1 frames more records free[..left] after memory[..k]. */
  lemma FilledPrefix(memory: seq<bv32>, k: nat, free: FreeList, left: nat, after: seq<bv32>)
    requires k < |memory| && 0 < left <= |free| && k + left <= |after|
    requires after[..k + left] == memory[k := free[0]][..k + 1] + free[1..][..left - 1]
    ensures after[..k + left] == memory[..k] + free[..left]
  {
    assert memory[k := free[0]][..k + 1] == memory[..k] + [free[0]];
    assert free[1..][..left - 1] == free[1..left];
    assert free[..left] == [free[0]] + free[1..left];
  }

  /** Frames free[0] and free[1..left] zeroed: free[..left] zeroed. */
  lemma FilledZeroed(free: FreeList, left: nat, ph: Phys)
    requires 0 < left <= |free| && Contents(ph, free[0]) == ZeroPage()
    requires forall i :: 0 <= i < left - 1 ==> Contents(ph, free[1..][i]) == ZeroPage()
    ensures forall i :: 0 <= i < left ==> Contents(ph, free[i]) == ZeroPage()
  {
    forall i | 0 < i < left
      ensures Contents(ph, free[i]) == ZeroPage()
    {
      assert free[i] == free[1..][i - 1];
    }
  }

  /** The loop only ever zeroes frames: a zeroed frame stays zeroed when the loop finishes. */
  lemma {:induction false} TruncFromZero(o: ShmObject, ph: Phys, left: nat, q: bv32)
    requires |o.memory| == NMEMORY && -1 <= o.allocatedPages && o.allocatedPages + left < NMEMORY
    requires left <= |ph.free| && Contents(ph, q) == ZeroPage()
    ensures Contents(TruncFrom(o, ph, left).ph, q) == ZeroPage()
    decreases left
  {
    if left > 0 {
      var k := o.allocatedPages + 1;
      TruncFromZero(o.(allocatedPages := k, memory := o.memory[k := ph.free[0]]), TakeZeroed(ph), left - 1, q);
    }
  }

  /**
   * Without enough free frames the loop takes the whole free list and then
   * frees every frame it recorded, the pages held before it included, and
   * allocated_pages is -1 again; nothing else about the object changes.
   */
  lemma {:induction false} TruncFromRollsBack(o: ShmObject, ph: Phys, left: nat)
    requires |o.memory| == NMEMORY && -1 <= o.allocatedPages && o.allocatedPages + left < NMEMORY
    requires |ph.free| < left
    ensures var t := TruncFrom(o, ph, left);
      !t.ok && t.o == o.(allocatedPages := -1, memory := t.o.memory) && |t.o.memory| == NMEMORY &&
      t.ph.free == Reversed(o.memory[..o.allocatedPages + 1] + ph.free)
    decreases left
  {
    if ph.free == [] {
      assert o.memory[..o.allocatedPages + 1] + ph.free == o.memory[..o.allocatedPages + 1];
    } else {
      var k := o.allocatedPages + 1;
      var o1 := o.(allocatedPages := k, memory := o.memory[k := ph.free[0]]);
      TruncFromRollsBack(o1, TakeZeroed(ph), left - 1);
      assert o1.memory[..k + 1] + ph.free[1..] == o.memory[..k] + ph.free;
    }
  }

  /**
   * shm_trunc (kernel/shmem.c:196-229) by process cur on slot d: a bound
   * slot in range whose object has no size yet gets PGROUNDUP(size)/PGSIZE
   * zeroed pages and the size, and the call returns the window's base plus
   * size; -1 otherwise. A size <= 0 fails before its page count matters:
   * C's division makes that count 0, 1 or a huge unsigned value, and -1
   * is returned in every case.
   */
  function Trunc(cfg: Config, s: Sys, cur: nat, d: int, size: int): Step
    requires cfg.Ok() && Callable(s, cur) && Shaped(s.objs)
  {
    if d >= cfg.localSlots as int || d < 0 then Step(-1, s)
    else
      var slot := s.procs[cur].slots[d];
      if slot.obj.None? then Step(-1, s)
      else if size <= 0 || RoundUpDivision(size, PGSIZE) > cfg.maxPages as int then Step(-1, s)
      else
        var g := slot.obj.value;
        var o := s.objs[g];
        if o.size != 0 then Step(-1, s)
        else
          RoundUpDivisionPages(size);
          var t := TruncFrom(o, s.phys, Pages(size));
          if !t.ok then Step(-1, s.(objs := s.objs[g := t.o], phys := t.ph))
          else Step(ShmBase(cfg, d) + size, s.(objs := s.objs[g := t.o.(size := size)], phys := t.ph))
  }

  /**
   * shm_trunc succeeds exactly for a slot in range, bound to an object
   * without a size, with 0 < size <= MAX_PAGES*PGSIZE, when kalloc has a
   * frame for each of its pages.
   */
  lemma TruncSucceeds(cfg: Config, s: Sys, cur: nat, d: int, size: int)
    requires cfg.Ok() && Callable(s, cur) && Shaped(s.objs)
    ensures Trunc(cfg, s, cur, d, size).r != -1 <==>
      0 <= d < cfg.localSlots && s.procs[cur].slots[d].obj.Some? &&
      0 < size <= cfg.maxPages * PGSIZE && s.objs[s.procs[cur].slots[d].obj.value].size == 0 &&
      Pages(size) <= |s.phys.free|
  {
    if 0 <= d < cfg.localSlots && s.procs[cur].slots[d].obj.Some? && size > 0 {
      RoundUpDivisionPages(size);
      PagesBound(cfg.maxPages, size);
      var o := s.objs[s.procs[cur].slots[d].obj.value];
      if o.size == 0 && Pages(size) <= cfg.maxPages {
        if Pages(size) <= |s.phys.free| {
          TruncFromFills(o, s.phys, Pages(size));
        } else {
          TruncFromRollsBack(o, s.phys, Pages(size));
        }
      }
    }
  }

  /**
   * shm_trunc's checks before it allocates (kernel/shmem.c:201-209): a slot
   * out of range or unbound, a size <= 0 or over MAX_PAGES pages, or an
   * object that already has a size make it return -1 and change nothing.
   */
  lemma TruncRejects(cfg: Config, s: Sys, cur: nat, d: int, size: int)
    requires cfg.Ok() && Callable(s, cur) && Shaped(s.objs)
    requires !(0 <= d < cfg.localSlots && s.procs[cur].slots[d].obj.Some? &&
      0 < size <= cfg.maxPages * PGSIZE && s.objs[s.procs[cur].slots[d].obj.value].size == 0)
    ensures Trunc(cfg, s, cur, d, size) == Step(-1, s)
  {
    if 0 <= d < cfg.localSlots && s.procs[cur].slots[d].obj.Some? && size > 0 {
      RoundUpDivisionPages(size);
      PagesBound(cfg.maxPages, size);
    }
  }

  /**
   * A successful shm_trunc returns the window's base plus size and gives
   * the object its size, allocated_pages = p - 1 and, in memory[0..p-1],
   * the first p free frames, zeroed, where p = round_up_division(size, PGSIZE).
   */
  lemma TruncFills(cfg: Config, s: Sys, cur: nat, d: int, size: int)
    requires cfg.Ok() && Callable(s, cur) && Shaped(s.objs)
    requires Trunc(cfg, s, cur, d, size).r != -1
    ensures 0 <= d < cfg.localSlots && s.procs[cur].slots[d].obj.Some? && size > 0
    ensures var g := s.procs[cur].slots[d].obj.value;
      var p := RoundUpDivision(size, PGSIZE);
      var s' := Trunc(cfg, s, cur, d, size).s;
      Trunc(cfg, s, cur, d, size).r == ShmBase(cfg, d) + size &&
      0 < p <= cfg.maxPages && p <= |s.phys.free| && |s'.objs| == |s.objs| &&
      s'.objs[g] == s.objs[g].(size := size, allocatedPages := p - 1, memory := s'.objs[g].memory) &&
      |s'.objs[g].memory| == NMEMORY && s'.objs[g].memory[..p] == s.phys.free[..p] && s'.phys.free == s.phys.free[p..] &&
      (forall i :: 0 <= i < p ==> Contents(s'.phys, s'.objs[g].memory[i]) == ZeroPage()) &&
      s'.objs == s.objs[g := s'.objs[g]] && s'.procs == s.procs
  {
    TruncSucceeds(cfg, s, cur, d, size);
    RoundUpDivisionPages(size);
    var g := s.procs[cur].slots[d].obj.value;
    var o := s.objs[g];
    TruncFromFills(o, s.phys, Pages(size));
    var t := TruncFrom(o, s.phys, Pages(size));
    forall i | 0 <= i < Pages(size)
      ensures Contents(t.ph, t.o.memory[i]) == ZeroPage()
    {
      assert t.o.memory[i] == t.o.memory[..Pages(size)][i];
    }
  }

  /**
   * When kalloc runs out, shm_trunc returns -1, frees every frame it took
   * (the whole free list, in reverse order), and leaves the object without
   * pages or size.
   */
  lemma TruncRollsBack(cfg: Config, s: Sys, cur: nat, d: int, size: int)
    requires cfg.Ok() && Callable(s, cur) && Shaped(s.objs)
    requires 0 <= d < cfg.localSlots && s.procs[cur].slots[d].obj.Some?
    requires 0 < size <= cfg.maxPages * PGSIZE && s.objs[s.procs[cur].slots[d].obj.value].size == 0
    requires |s.phys.free| < Pages(size)
    ensures var g := s.procs[cur].slots[d].obj.value;
      var s' := Trunc(cfg, s, cur, d, size).s;
      Trunc(cfg, s, cur, d, size).r == -1 &&
      s'.phys.free == Reversed(s.phys.free) && s'.objs[g].allocatedPages == -1 && s'.objs[g].size == 0 &&
      |s'.objs[g].memory| == NMEMORY &&
      s'.objs == s.objs[g := s.objs[g].(memory := s'.objs[g].memory)] && s'.procs == s.procs
  {
    RoundUpDivisionPages(size);
    PagesBound(cfg.maxPages, size);
    var o := s.objs[s.procs[cur].slots[d].obj.value];
    TruncFromRollsBack(o, s.phys, Pages(size));
    assert o.memory[..0] + s.phys.free == s.phys.free;
  }

  // ---------------------------------------------------------------------
  // unmap

  /**
   * The loop of unmap (kernel/shmem.c:111-125) and unmap1
   * (kernel/proc.c:329-341) over pages n up to hi: each present entry is
   * zeroed. A page whose page table is absent is skipped; see
   * UnmapFromAsWritten for the source's dereference of the null entry.
   */
  function UnmapFrom(pd: PageDir, n: nat, hi: nat): (r: PageDir)
    ensures r.tables.Keys == pd.tables.Keys
    decreases hi - n
  {
    if n >= hi then pd
    else if Pdx(n) in pd.tables && Present(Lookup(pd, n).value) then UnmapFrom(SetPte(pd, n, 0), n + 1, hi)
    else UnmapFrom(pd, n + 1, hi)
  }

  /** unmap zeroes exactly the present entries of pages n up to hi and leaves every other entry as it was. */
  lemma {:induction false} UnmapEntry(pd: PageDir, n: nat, hi: nat, m: nat)
    ensures Lookup(UnmapFrom(pd, n, hi), m) ==
      if n <= m < hi && Mapping(pd, m).Some? then Some(0) else Lookup(pd, m)
    decreases hi - n
  {
    if n < hi {
      if Pdx(n) in pd.tables && Present(Lookup(pd, n).value) {
        var pd1 := SetPte(pd, n, 0);
        UnmapEntry(pd1, n + 1, hi, m);
        if m != n {
          SetPteOther(pd, n, 0, m);
        } else {
          assert !Present(0);
        }
      } else {
        UnmapEntry(pd, n + 1, hi, m);
      }
    }
  }

  /** After unmap no page from n up to hi is mapped, and every other page translates as before. */
  lemma UnmapMapping(pd: PageDir, n: nat, hi: nat, m: nat)
    ensures Mapping(UnmapFrom(pd, n, hi), m) == if n <= m < hi then None else Mapping(pd, m)
  {
    UnmapEntry(pd, n, hi, m);
    assert !Present(0);
  }

  /**
   * The loop of unmap (kernel/shmem.c:111-125) and unmap1
   * (kernel/proc.c:329-341) as written: walkpgdir(pgdir, a, 0) returns 0
   * when the page table is absent and the entry is read through that
   * null pointer unchecked. The kernel runs with the user's page directory
   * loaded, so that access reads (and, when bit 0 is set, zeroes) the word
   * at user address 0 rather than stopping: None stands for that access,
   * whose effect the model does not follow.
   */
  function UnmapFromAsWritten(pd: PageDir, n: nat, hi: nat): Option<PageDir>
    decreases hi - n
  {
    if n >= hi then Some(pd)
    else if Pdx(n) !in pd.tables then None
    else if Present(Lookup(pd, n).value) then UnmapFromAsWritten(SetPte(pd, n, 0), n + 1, hi)
    else UnmapFromAsWritten(pd, n + 1, hi)
  }

  /**
   * As written, unmap goes through the null entry exactly when a page from
   * n up to hi has no page table, and otherwise does what UnmapFrom does.
   */
  lemma {:induction false} UnmapAsWrittenAgrees(pd: PageDir, n: nat, hi: nat)
    ensures UnmapFromAsWritten(pd, n, hi).None? <==> exists m :: n <= m < hi && Pdx(m) !in pd.tables
    ensures UnmapFromAsWritten(pd, n, hi).Some? ==> UnmapFromAsWritten(pd, n, hi).value == UnmapFrom(pd, n, hi)
    decreases hi - n
  {
    if n < hi && Pdx(n) in pd.tables {
      var pd1 := if Present(Lookup(pd, n).value) then SetPte(pd, n, 0) else pd;
      UnmapAsWrittenAgrees(pd1, n + 1, hi);
      assert pd1.tables.Keys == pd.tables.Keys;
      if exists m :: n <= m < hi && Pdx(m) !in pd.tables {
        var m :| n <= m < hi && Pdx(m) !in pd.tables;
        assert n + 1 <= m;
      }
    }
  }

  /**
   * The window of a slot mapped while its object had no pages (shm_map
   * then maps nothing) has no page table; once shm_trunc gives the object
   * a page, shm_close's unmap of that window goes through the null entry.
   */
  lemma UnmapAsWrittenNullEntry()
    ensures UnmapFromAsWritten(PageDir(map[]), 0, 1).None?
    ensures UnmapFrom(PageDir(map[]), 0, 1) == PageDir(map[])
  {
  }

  // ---------------------------------------------------------------------
  // shm_map

  /**
   * The entry bits shm_map asks mappages for: the caller's flags, limited
   * to the flag bits of an entry, with PTE_U. See ShmPermAsWritten.
   */
  function ShmPerm(flags: bv32): bv32
  {
    (flags & 0xFFF) | PTE_U
  }

  /** The entry bits shm_map asks mappages for as written (kernel/shmem.c:242): the caller's flags, unmasked, with PTE_U. */
  function ShmPermAsWritten(flags: bv32): bv32
  {
    flags | PTE_U
  }

  /**
   * As written, a caller's flags with bit 12 set move the entry of frame
   * 0x4000 onto frame 0x5000: mappages ORs the bits into the address.
   */
  lemma ShmPermAsWrittenMovesFrame()
    ensures PteAddr(0x4000 | ShmPermAsWritten(0x1000) | PTE_P) == 0x5000
  {
  }

  /**
   * As written, for every frame and every flags, the entry names the frame
   * ORed with the caller's bits above the flag bits: it names the object's
   * own frame only when those bits are already set in it.
   */
  lemma ShmPermAsWrittenFrame(pa: bv32, flags: bv32)
    requires PageAligned(pa)
    ensures PteAddr(pa | ShmPermAsWritten(flags) | PTE_P) == pa | (flags & 0xFFFF_F000)
    ensures PteAddr(pa | ShmPermAsWritten(flags) | PTE_P) == pa <==> flags & 0xFFFF_F000 & !pa == 0
  {
  }

  /**
   * With the flags limited to the flag bits, the entry shm_map writes names
   * the object's own frame and carries the caller's flag bits, PTE_U and
   * PTE_P.
   */
  lemma ShmPermKeepsFrame(pa: bv32, flags: bv32)
    requires PageAligned(pa)
    ensures PteAddr(pa | ShmPerm(flags) | PTE_P) == pa
    ensures PteFlags(pa | ShmPerm(flags) | PTE_P) == (flags & 0xFFF) | PTE_U | PTE_P
  {
  }

  /** Where the loop of shm_map stopped: how, the page directory and pool then, and at which page. */
  datatype ShmMapped = ShmMapped(status: MapStatus, pd: PageDir, free: FreeList, at: nat)

  /**
   * The loop of shm_map (kernel/shmem.c:241-249) over the object's frames
   * still to map, the next going to virtual page n: mappages for one page
   * (MapPagesOnePage). A failure at the object's first page (first) is
   * ignored; a later failure or a remap ends the loop at that page. The
   * unmap that follows a failure is applied by Map.
   */
  function ShmMapFrom(pd: PageDir, free: FreeList, frames: seq<bv32>, n: nat, first: bool, perm: bv32): (r: ShmMapped)
    ensures n <= r.at <= n + |frames| && (r.status == Mapped <==> r.at == n + |frames|)
    ensures r.status == NoMemory && first ==> r.at > n
    decreases |frames|
  {
    if frames == [] then ShmMapped(Mapped, pd, free, n)
    else
      var m := MapStep(pd, free, n, frames[0], perm);
      if m.status == Mapped || (first && m.status == NoMemory) then ShmMapFrom(m.pd, m.free, frames[1..], n + 1, false, perm)
      else ShmMapped(m.status, m.pd, m.free, n)
  }

  /** No page from lo through hi is mapped. */
  predicate WindowFree(pd: PageDir, lo: nat, hi: int)
  {
    forall m: nat :: lo <= m <= hi ==> Mapping(pd, m).None?
  }

  /** The loop stops at a remap only at a page that was mapped before it started. */
  lemma {:induction false} ShmMapRemap(pd: PageDir, free: FreeList, frames: seq<bv32>, n: nat, first: bool, perm: bv32)
    requires ShmMapFrom(pd, free, frames, n, first, perm).status == Remap
    ensures Mapping(pd, ShmMapFrom(pd, free, frames, n, first, perm).at).Some?
    decreases |frames|
  {
    var s := MapStep(pd, free, n, frames[0], perm);
    MapStepSummary(pd, free, n, frames[0], perm);
    if s.status == Mapped || (first && s.status == NoMemory) {
      var r := ShmMapFrom(s.pd, s.free, frames[1..], n + 1, false, perm);
      ShmMapRemap(s.pd, s.free, frames[1..], n + 1, false, perm);
      MapStepFrame(pd, free, n, frames[0], perm, r.at);
    }
  }

  /** The loop leaves the pages below n, and those from the page it stopped at on, as they were. */
  lemma {:induction false} ShmMapOutside(pd: PageDir, free: FreeList, frames: seq<bv32>, n: nat, first: bool, perm: bv32, m: nat)
    requires m < n || ShmMapFrom(pd, free, frames, n, first, perm).at <= m
    ensures Mapping(ShmMapFrom(pd, free, frames, n, first, perm).pd, m) == Mapping(pd, m)
    decreases |frames|
  {
    if frames != [] {
      var s := MapStep(pd, free, n, frames[0], perm);
      MapStepSummary(pd, free, n, frames[0], perm);
      if s.status == Mapped || (first && s.status == NoMemory) {
        MapStepFrame(pd, free, n, frames[0], perm, m);
        ShmMapOutside(s.pd, s.free, frames[1..], n + 1, false, perm, m);
      }
    }
  }

  /**
   * Each page m the loop got past, from n up to the page it stopped at,
   * translates to its frame with perm|PTE_P, if it was unmapped before,
   * unless it is the object's first page and was skipped for want of a
   * page table.
   */
  lemma {:induction false} ShmMapMapsAt(pd: PageDir, free: FreeList, frames: seq<bv32>, n: nat, first: bool, perm: bv32, m: nat)
    requires n <= m < ShmMapFrom(pd, free, frames, n, first, perm).at && Mapping(pd, m).None?
    ensures var pd' := ShmMapFrom(pd, free, frames, n, first, perm).pd;
      Mapping(pd', m) == Some(frames[m - n] | perm | PTE_P) || (first && m == n && Mapping(pd', m).None?)
    decreases |frames|
  {
    if m == n {
      ShmMapMapsFirst(pd, free, frames, n, first, perm);
    } else {
      var s := MapStep(pd, free, n, frames[0], perm);
      MapStepFrame(pd, free, n, frames[0], perm, m);
      ShmMapMapsAt(s.pd, s.free, frames[1..], n + 1, false, perm, m);
      assert frames[1..][m - (n + 1)] == frames[m - n];
    }
  }

  /** The first page the loop gets past translates to its frame, unless it is the object's first page and was skipped. */
  lemma ShmMapMapsFirst(pd: PageDir, free: FreeList, frames: seq<bv32>, n: nat, first: bool, perm: bv32)
    requires n < ShmMapFrom(pd, free, frames, n, first, perm).at && Mapping(pd, n).None?
    ensures var pd' := ShmMapFrom(pd, free, frames, n, first, perm).pd;
      Mapping(pd', n) == Some(frames[0] | perm | PTE_P) || (first && Mapping(pd', n).None?)
  {
    var s := MapStep(pd, free, n, frames[0], perm);
    ShmMapOutside(s.pd, s.free, frames[1..], n + 1, false, perm, n);
    if s.status == Mapped {
      MapStepMaps(pd, free, n, frames[0], perm);
    } else {
      MapStepSummary(pd, free, n, frames[0], perm);
    }
  }

  /**
   * What shm_map does to the calling process p and the free list once the
   * slot has passed its checks: whether it panicked, its result, and the
   * new process and free list.
   */
  datatype ProcMapped = ProcMapped(panicked: bool, r: int, p: Proc, free: FreeList)

  /**
   * The mapping part of shm_map (kernel/shmem.c:240-252) for slot d of p
   * and the frames of its object: a remap panics; a failure after the
   * first page unmaps what the loop mapped and gives -1; otherwise the
   * slot records the window's address and the flags.
   */
  function MapProc(cfg: Config, p: Proc, free: FreeList, frames: seq<bv32>, d: nat, flags: bv32): ProcMapped
    requires cfg.Ok() && d < |p.slots| && d < NSLOTS
  {
    var m := ShmMapFrom(p.pgdir, free, frames, BasePage(cfg, d), true, ShmPerm(flags));
    if m.status == Remap then ProcMapped(true, -1, p, free)
    else if m.status == NoMemory then ProcMapped(false, -1, p.(pgdir := UnmapFrom(m.pd, BasePage(cfg, d), m.at)), m.free)
    else ProcMapped(false, 0, p.(pgdir := m.pd, slots := p.slots[d := p.slots[d].(va := ShmBase(cfg, d), flags := flags)]), m.free)
  }

  /**
   * shm_map (kernel/shmem.c:231-254) by process cur on slot d: an unmapped
   * bound slot in range gets its object's pages mapped at its window with
   * the caller's flags and PTE_U, and records the window's address and
   * the flags; 0 on success, -1 otherwise. A page table mappages needs
   * comes from the free list.
   */
  function Map(cfg: Config, s: Sys, cur: nat, d: int, flags: bv32): Step
    requires cfg.Ok() && Callable(s, cur) && Shaped(s.objs)
  {
    if d >= cfg.localSlots as int || d < 0 then Step(-1, s)
    else
      var p := s.procs[cur];
      var slot := p.slots[d];
      if slot.va != 0 || slot.obj.None? then Step(-1, s)
      else
        var o := s.objs[slot.obj.value];
        var q := MapProc(cfg, p, s.phys.free, o.memory[..o.allocatedPages + 1], d, flags);
        if q.panicked then Panic("remap")
        else Step(q.r, s.(procs := s.procs[cur := q.p], phys := s.phys.(free := q.free)))
  }

  /** shm_map on an in-range, bound, unmapped slot whose window is free does not panic. */
  lemma MapNoPanic(cfg: Config, s: Sys, cur: nat, d: nat, flags: bv32)
    requires cfg.Ok() && Callable(s, cur) && Shaped(s.objs)
    requires d < cfg.localSlots && s.procs[cur].slots[d].obj.Some?
    requires WindowFree(s.procs[cur].pgdir, BasePage(cfg, d), BasePage(cfg, d) + s.objs[s.procs[cur].slots[d].obj.value].allocatedPages)
    ensures Map(cfg, s, cur, d, flags).Step?
  {
    var p := s.procs[cur];
    var o := s.objs[p.slots[d].obj.value];
    var r := ShmMapFrom(p.pgdir, s.phys.free, o.memory[..o.allocatedPages + 1], BasePage(cfg, d), true, ShmPerm(flags));
    if r.status == Remap {
      ShmMapRemap(p.pgdir, s.phys.free, o.memory[..o.allocatedPages + 1], BasePage(cfg, d), true, ShmPerm(flags));
    }
  }

  /** A successful shm_map records the window's address and the flags in the slot. */
  lemma MapSucceeds(cfg: Config, s: Sys, cur: nat, d: int, flags: bv32)
    requires cfg.Ok() && Callable(s, cur) && Shaped(s.objs)
    requires Map(cfg, s, cur, d, flags).Step? && Map(cfg, s, cur, d, flags).r == 0
    ensures 0 <= d < cfg.localSlots && s.procs[cur].slots[d].obj.Some? && s.procs[cur].slots[d].va == 0
    ensures Map(cfg, s, cur, d, flags).s.procs[cur].slots ==
      s.procs[cur].slots[d := LocalSlot(ShmBase(cfg, d), flags, s.procs[cur].slots[d].obj)]
  {
  }

  /** A successful shm_map leaves the caller with the page directory its loop built. */
  lemma MapTook(cfg: Config, s: Sys, cur: nat, d: nat, flags: bv32)
    requires cfg.Ok() && Callable(s, cur) && Shaped(s.objs)
    requires d < cfg.localSlots && s.procs[cur].slots[d].obj.Some?
    requires Map(cfg, s, cur, d, flags).Step? && Map(cfg, s, cur, d, flags).r == 0
    ensures var o := s.objs[s.procs[cur].slots[d].obj.value];
      var r := ShmMapFrom(s.procs[cur].pgdir, s.phys.free, o.memory[..o.allocatedPages + 1], BasePage(cfg, d), true, ShmPerm(flags));
      r.status == Mapped && Map(cfg, s, cur, d, flags).s.procs[cur].pgdir == r.pd
  {
  }

  /**
   * After a successful shm_map on a free window, page i of the window, for
   * any i up to allocated_pages, translates to the object's memory[i] with
   * the flags, PTE_U and PTE_P (page 0 may be skipped when its page table
   * cannot be had).
   */
  lemma MapMaps(cfg: Config, s: Sys, cur: nat, d: nat, flags: bv32, i: nat)
    requires cfg.Ok() && Callable(s, cur) && Shaped(s.objs)
    requires d < cfg.localSlots && s.procs[cur].slots[d].obj.Some?
    requires WindowFree(s.procs[cur].pgdir, BasePage(cfg, d), BasePage(cfg, d) + s.objs[s.procs[cur].slots[d].obj.value].allocatedPages)
    requires Map(cfg, s, cur, d, flags).Step? && Map(cfg, s, cur, d, flags).r == 0
    requires i <= s.objs[s.procs[cur].slots[d].obj.value].allocatedPages
    ensures var o := s.objs[s.procs[cur].slots[d].obj.value];
      var pd' := Map(cfg, s, cur, d, flags).s.procs[cur].pgdir;
      Mapping(pd', BasePage(cfg, d) + i) == Some(o.memory[i] | ShmPerm(flags) | PTE_P) ||
      (i == 0 && Mapping(pd', BasePage(cfg, d)).None?)
  {
    var p := s.procs[cur];
    var o := s.objs[p.slots[d].obj.value];
    var frames := o.memory[..o.allocatedPages + 1];
    MapProcMaps(cfg, p, s.phys.free, frames, d, flags, i);
    assert frames[i] == o.memory[i];
  }

  /** MapMaps for the one process whose window is mapped. */
  lemma MapProcMaps(cfg: Config, p: Proc, free: FreeList, frames: seq<bv32>, d: nat, flags: bv32, i: nat)
    requires cfg.Ok() && d < |p.slots| && d < NSLOTS
    requires WindowFree(p.pgdir, BasePage(cfg, d), BasePage(cfg, d) + |frames| - 1) && i < |frames|
    requires var q := MapProc(cfg, p, free, frames, d, flags); !q.panicked && q.r == 0
    ensures var pd' := MapProc(cfg, p, free, frames, d, flags).p.pgdir;
      Mapping(pd', BasePage(cfg, d) + i) == Some(frames[i] | ShmPerm(flags) | PTE_P) ||
      (i == 0 && Mapping(pd', BasePage(cfg, d)).None?)
  {
    assert Mapping(p.pgdir, BasePage(cfg, d) + i).None?;
    ShmMapFills(p.pgdir, free, frames, BasePage(cfg, d), ShmPerm(flags), i);
  }

  /** When the loop of shm_map gets through, each frame i is mapped at page n + i, if that page was free before. */
  lemma ShmMapFills(pd: PageDir, free: FreeList, frames: seq<bv32>, n: nat, perm: bv32, i: nat)
    requires ShmMapFrom(pd, free, frames, n, true, perm).status == Mapped
    requires i < |frames| && Mapping(pd, n + i).None?
    ensures var pd' := ShmMapFrom(pd, free, frames, n, true, perm).pd;
      Mapping(pd', n + i) == Some(frames[i] | perm | PTE_P) || (i == 0 && Mapping(pd', n).None?)
  {
    ShmMapMapsAt(pd, free, frames, n, true, perm, n + i);
  }

  /**
   * shm_map on an in-range, bound, unmapped slot with a free window that
   * returns -1 leaves the slot as it was and no page of the window mapped.
   */
  lemma MapRollsBack(cfg: Config, s: Sys, cur: nat, d: nat, flags: bv32)
    requires cfg.Ok() && Callable(s, cur) && Shaped(s.objs)
    requires d < cfg.localSlots && s.procs[cur].slots[d].obj.Some? && s.procs[cur].slots[d].va == 0
    requires WindowFree(s.procs[cur].pgdir, BasePage(cfg, d), BasePage(cfg, d) + s.objs[s.procs[cur].slots[d].obj.value].allocatedPages)
    requires Map(cfg, s, cur, d, flags).Step? && Map(cfg, s, cur, d, flags).r != 0
    ensures var o := s.objs[s.procs[cur].slots[d].obj.value];
      var s' := Map(cfg, s, cur, d, flags).s;
      Map(cfg, s, cur, d, flags).r == -1 && s'.procs[cur].slots == s.procs[cur].slots &&
      WindowFree(s'.procs[cur].pgdir, BasePage(cfg, d), BasePage(cfg, d) + o.allocatedPages)
  {
    MapNoPanic(cfg, s, cur, d, flags);
    var p := s.procs[cur];
    var o := s.objs[p.slots[d].obj.value];
    var base := BasePage(cfg, d);
    var r := ShmMapFrom(p.pgdir, s.phys.free, o.memory[..o.allocatedPages + 1], base, true, ShmPerm(flags));
    var pd' := Map(cfg, s, cur, d, flags).s.procs[cur].pgdir;
    forall m: nat | base <= m <= base + o.allocatedPages
      ensures Mapping(pd', m).None?
    {
      UnmapMapping(r.pd, base, r.at, m);
      if r.at <= m {
        ShmMapOutside(p.pgdir, s.phys.free, o.memory[..o.allocatedPages + 1], base, true, ShmPerm(flags), m);
      }
    }
  }

  /**
   * shm_map changes no object, no other process, and no page of the
   * caller outside the slot's window.
   */
  lemma MapFrame(cfg: Config, s: Sys, cur: nat, d: int, flags: bv32, m: nat)
    requires cfg.Ok() && Callable(s, cur) && Shaped(s.objs)
    requires Map(cfg, s, cur, d, flags).Step?
    requires 0 <= d < cfg.localSlots && s.procs[cur].slots[d].obj.Some? ==>
      m < BasePage(cfg, d) || BasePage(cfg, d) + s.objs[s.procs[cur].slots[d].obj.value].allocatedPages < m
    ensures var s' := Map(cfg, s, cur, d, flags).s;
      s'.objs == s.objs && |s'.procs| == |s.procs| &&
      (forall q :: 0 <= q < |s.procs| && q != cur ==> s'.procs[q] == s.procs[q]) &&
      s'.procs[cur].state == s.procs[cur].state &&
      Mapping(s'.procs[cur].pgdir, m) == Mapping(s.procs[cur].pgdir, m)
  {
    if 0 <= d < cfg.localSlots && s.procs[cur].slots[d].obj.Some? {
      var p := s.procs[cur];
      var o := s.objs[p.slots[d].obj.value];
      MapProcFrame(cfg, p, s.phys.free, o.memory[..o.allocatedPages + 1], d, flags, m);
    }
  }

  /** Mapping a window into one process leaves its state and its pages outside the window as they were. */
  lemma MapProcFrame(cfg: Config, p: Proc, free: FreeList, frames: seq<bv32>, d: nat, flags: bv32, m: nat)
    requires cfg.Ok() && d < |p.slots| && d < NSLOTS
    requires m < BasePage(cfg, d) || BasePage(cfg, d) + |frames| <= m
    ensures var q := MapProc(cfg, p, free, frames, d, flags);
      q.p.state == p.state && Mapping(q.p.pgdir, m) == Mapping(p.pgdir, m)
  {
    var r := ShmMapFrom(p.pgdir, free, frames, BasePage(cfg, d), true, ShmPerm(flags));
    ShmMapOutside(p.pgdir, free, frames, BasePage(cfg, d), true, ShmPerm(flags), m);
    UnmapMapping(r.pd, BasePage(cfg, d), r.at, m);
  }

  // ---------------------------------------------------------------------
  // shm_close

  /**
   * shm_close (kernel/shmem.c:163-191) by process cur on slot d, which
   * must be bound when it is in range (the source dereferences the slot's
   * object unchecked): a mapped slot's window is unmapped for the object's
   * size, the object loses one reference and, at none left, its pages are
   * freed and it goes back to free; the slot is cleared. Returns 1, or -1
   * for a slot out of range.
   */
  function Close(cfg: Config, s: Sys, cur: nat, d: int): Step
    requires cfg.Ok() && Callable(s, cur) && Shaped(s.objs)
    requires 0 <= d < cfg.localSlots ==> s.procs[cur].slots[d].obj.Some?
  {
    if d >= cfg.localSlots as int || d < 0 then Step(-1, s)
    else
      var p := s.procs[cur];
      var slot := p.slots[d];
      var g := slot.obj.value;
      var o := s.objs[g];
      var pd := if slot.va != 0 then UnmapFrom(p.pgdir, BasePage(cfg, d), BasePage(cfg, d) + Pages(o.size)) else p.pgdir;
      var s1 := s.(procs := s.procs[cur := p.(pgdir := pd, slots := p.slots[d := Unbound])]);
      if o.refCount - 1 == 0 then
        Step(1, s1.(objs := s.objs[g := Emptied(o)],
                    phys := s.phys.(free := FreeFrames(s.phys.free, o.memory[..o.allocatedPages + 1]))))
      else Step(1, s1.(objs := s.objs[g := Released(o)]))
  }

  /**
   * shm_close on a bound slot in range clears the slot, takes one reference
   * off its object and, if the slot was mapped, leaves no page of the
   * object's size mapped in the window; at the last reference the
   * object's pages 0..allocated_pages are freed and it is free again.
   */
  lemma CloseEffect(cfg: Config, s: Sys, cur: nat, d: nat, m: nat)
    requires cfg.Ok() && Callable(s, cur) && Shaped(s.objs)
    requires d < cfg.localSlots && s.procs[cur].slots[d].obj.Some?
    ensures var g := s.procs[cur].slots[d].obj.value;
      var o := s.objs[g];
      var base := BasePage(cfg, d);
      var s' := Close(cfg, s, cur, d).s;
      Close(cfg, s, cur, d).r == 1 &&
      s'.procs[cur].slots == s.procs[cur].slots[d := Unbound] &&
      (s.procs[cur].slots[d].va != 0 && base <= m < base + Pages(o.size) ==> Mapping(s'.procs[cur].pgdir, m).None?) &&
      (s.procs[cur].slots[d].va == 0 || m < base || base + Pages(o.size) <= m ==>
        Mapping(s'.procs[cur].pgdir, m) == Mapping(s.procs[cur].pgdir, m)) &&
      (o.refCount > 1 ==> s'.objs == s.objs[g := Released(o)] && s'.phys == s.phys) &&
      (o.refCount == 1 ==>
        s'.objs == s.objs[g := Emptied(o)] &&
        s'.phys.free == Reversed(o.memory[..o.allocatedPages + 1]) + s.phys.free)
  {
    var p := s.procs[cur];
    if p.slots[d].va != 0 {
      UnmapMapping(p.pgdir, BasePage(cfg, d), BasePage(cfg, d) + Pages(s.objs[p.slots[d].obj.value].size), m);
    }
  }

  // ---------------------------------------------------------------------
  // The invariant

  /** shm_open of a non-empty name by a live process keeps the kernel consistent. */
  lemma OpenKeeps(cfg: Config, s: Sys, cur: nat, name: string)
    requires cfg.Ok() && Consistent(cfg, s) && cur < |s.procs| && s.procs[cur].state != UNUSED && name != ""
    ensures Callable(s, cur) && Consistent(cfg, Open(s, cur, name).s)
  {
    ConsistentCallable(cfg, s, cur);
    var slots := s.procs[cur].slots;
    if NamedSlotFrom(s.objs, slots, name, 0) < 0 {
      var free := FreeSlotFrom(slots, 0);
      var f := FetchFrom(s.objs, name, 0, -1);
      if free >= 0 && f.index >= 0 {
        OpenBindKeeps(cfg, s, cur, name, free, f.index);
      }
    }
  }

  /** The binding case of shm_open: slot free takes a reference to entry g. */
  lemma OpenBindKeeps(cfg: Config, s: Sys, cur: nat, name: string, free: int, g: int)
    requires cfg.Ok() && Consistent(cfg, s) && cur < |s.procs| && s.procs[cur].state != UNUSED && name != ""
    requires Callable(s, cur) && NamedSlotFrom(s.objs, s.procs[cur].slots, name, 0) < 0
    requires free == FreeSlotFrom(s.procs[cur].slots, 0) && free >= 0
    requires g == FetchFrom(s.objs, name, 0, -1).index && g >= 0
    ensures Consistent(cfg, Open(s, cur, name).s)
  {
    var slots := s.procs[cur].slots;
    FreeSlotFirst(slots, 0);
    FetchedName(s.objs, name, 0, -1);
    var f := FetchFrom(s.objs, name, 0, -1);
    var o := s.objs[g];
    var o' := Claimed(o, name, f.exist);
    assert ObjectOk(cfg, o) && o.refCount >= 0;
    BindKeeps(cfg, s, cur, free, g, o');
    OpenBinds(s, cur, name);
  }

  /** What shm_open changes when it binds: the free slot, and the reference count and name of the fetched entry. */
  lemma OpenBinds(s: Sys, cur: nat, name: string)
    requires Callable(s, cur) && NamedSlotFrom(s.objs, s.procs[cur].slots, name, 0) < 0
    requires FreeSlotFrom(s.procs[cur].slots, 0) >= 0 && FetchFrom(s.objs, name, 0, -1).index >= 0
    ensures var slots := s.procs[cur].slots;
      var free := FreeSlotFrom(slots, 0);
      var f := FetchFrom(s.objs, name, 0, -1);
      Open(s, cur, name).s == WithSlots(s, cur, slots[free := slots[free].(obj := Some(f.index))]).(objs :=
        s.objs[f.index := Claimed(s.objs[f.index], name, f.exist)])
  {
  }

  /** The entry fetch_shared_memory_object returns is called name when exist is set, and has no name otherwise. */
  lemma {:induction false} FetchedName(objs: seq<ShmObject>, name: string, i: nat, firstFree: int)
    requires i <= |objs| && -1 <= firstFree < |objs|
    requires firstFree != -1 ==> objs[firstFree].name == ""
    ensures var f := FetchFrom(objs, name, i, firstFree);
      f.index != -1 ==> objs[f.index].name == (if f.exist then name else "")
    decreases |objs| - i
  {
    if i < |objs| && objs[i].name != name {
      FetchedName(objs, name, i + 1, if firstFree < 0 && objs[i].name == "" then i else firstFree);
    }
  }

  /** Binding free slot free of a live process to entry g, whose reference count grows by one, keeps the kernel consistent. */
  lemma BindKeeps(cfg: Config, s: Sys, cur: nat, free: nat, g: nat, o': ShmObject)
    requires Consistent(cfg, s) && cur < |s.procs| && s.procs[cur].state != UNUSED
    requires free < NSLOTS && s.procs[cur].slots[free].obj.None? && g < |s.objs|
    requires ObjectOk(cfg, o') && o'.refCount == s.objs[g].refCount + 1
    ensures var slots := s.procs[cur].slots;
      Consistent(cfg, WithSlots(s, cur, slots[free := slots[free].(obj := Some(g))]).(objs := s.objs[g := o']))
  {
    var slots := s.procs[cur].slots;
    var slot := slots[free].(obj := Some(g));
    var s' := WithSlots(s, cur, slots[free := slot]).(objs := s.objs[g := o']);
    assert ProcOk(cfg, |s.objs|, s.procs[cur]);
    assert SlotOk(cfg, |s.objs|, free, slots[free]);
    forall h | 0 <= h < |s'.objs|
      ensures ObjectOk(cfg, s'.objs[h]) && s'.objs[h].refCount == Refs(s'.procs, h)
    {
      RefsRebind(s.procs, cur, s'.procs[cur], free, slot, h);
    }
    assert SlotOk(cfg, |s.objs|, free, slot);
    forall p | 0 <= p < |s'.procs|
      ensures ProcOk(cfg, |s'.objs|, s'.procs[p])
    {
      if p == cur {
        RebindProcOk(cfg, |s.objs|, s.procs[cur], free, slot);
      } else {
        assert s'.procs[p] == s.procs[p];
      }
    }
  }

  /** Rebinding one slot of a live process to a well-formed slot keeps the process well-formed. */
  lemma RebindProcOk(cfg: Config, nobjs: nat, p: Proc, d: nat, slot: LocalSlot)
    requires ProcOk(cfg, nobjs, p) && p.state != UNUSED && d < NSLOTS && SlotOk(cfg, nobjs, d, slot)
    ensures ProcOk(cfg, nobjs, p.(slots := p.slots[d := slot]))
  {
    var q := p.(slots := p.slots[d := slot]);
    forall e | 0 <= e < NSLOTS
      ensures SlotOk(cfg, nobjs, e, q.slots[e])
    {
      if e != d {
        assert q.slots[e] == p.slots[e];
      }
    }
  }

  /** shm_trunc keeps the kernel consistent. */
  lemma TruncKeeps(cfg: Config, s: Sys, cur: nat, d: int, size: int)
    requires cfg.Ok() && Consistent(cfg, s) && cur < |s.procs|
    ensures Callable(s, cur) && Shaped(s.objs) && Consistent(cfg, Trunc(cfg, s, cur, d, size).s)
  {
    ConsistentCallable(cfg, s, cur);
    if 0 <= d < cfg.localSlots && s.procs[cur].slots[d].obj.Some? && 0 < size <= cfg.maxPages * PGSIZE &&
       s.objs[s.procs[cur].slots[d].obj.value].size == 0 {
      PagesBound(cfg.maxPages, size);
      TruncObject(cfg, s, cur, d, size);
      var s' := Trunc(cfg, s, cur, d, size).s;
      forall p | 0 <= p < |s'.procs|
        ensures ProcOk(cfg, |s'.objs|, s'.procs[p])
      {
        assert ProcOk(cfg, |s.objs|, s.procs[p]);
      }
    } else if size > 0 {
      RoundUpDivisionPages(size);
      PagesBound(cfg.maxPages, size);
    }
  }

  /** The entry shm_trunc works on stays well formed and keeps its references; nothing else changes. */
  lemma TruncObject(cfg: Config, s: Sys, cur: nat, d: nat, size: int)
    requires cfg.Ok() && Consistent(cfg, s) && cur < |s.procs| && Callable(s, cur) && Shaped(s.objs)
    requires d < cfg.localSlots && s.procs[cur].slots[d].obj.Some? && 0 < size <= cfg.maxPages * PGSIZE
    requires s.objs[s.procs[cur].slots[d].obj.value].size == 0
    ensures var g := s.procs[cur].slots[d].obj.value;
      var s' := Trunc(cfg, s, cur, d, size).s;
      s'.procs == s.procs && s'.objs == s.objs[g := s'.objs[g]] &&
      ObjectOk(cfg, s'.objs[g]) && s'.objs[g].refCount == s.objs[g].refCount
  {
    var g := s.procs[cur].slots[d].obj.value;
    BoundNamed(cfg, s, cur, d);
    assert ObjectOk(cfg, s.objs[g]);
    RoundUpDivisionPages(size);
    PagesBound(cfg.maxPages, size);
    TruncSucceeds(cfg, s, cur, d, size);
    if Pages(size) <= |s.phys.free| {
      TruncFills(cfg, s, cur, d, size);
    } else {
      TruncRollsBack(cfg, s, cur, d, size);
    }
  }

  /** shm_map that does not panic keeps the kernel consistent. */
  lemma MapKeeps(cfg: Config, s: Sys, cur: nat, d: int, flags: bv32)
    requires cfg.Ok() && Consistent(cfg, s) && cur < |s.procs|
    ensures Callable(s, cur) && Shaped(s.objs)
    ensures Map(cfg, s, cur, d, flags).Step? ==> Consistent(cfg, Map(cfg, s, cur, d, flags).s)
  {
    ConsistentCallable(cfg, s, cur);
    var m := Map(cfg, s, cur, d, flags);
    if m.Step? {
      var s' := m.s;
      var slots := s.procs[cur].slots;
      var slots' := s'.procs[cur].slots;
      assert s'.objs == s.objs && |s'.procs| == |s.procs| && s'.procs == s.procs[cur := s'.procs[cur]];
      assert s'.procs[cur].state == s.procs[cur].state;
      if slots' != slots {
        assert 0 <= d < cfg.localSlots && slots[d].obj.Some? &&
          slots' == slots[d := LocalSlot(ShmBase(cfg, d), flags, slots[d].obj)];
      }
      forall g | 0 <= g < |s'.objs|
        ensures s'.objs[g].refCount == Refs(s'.procs, g)
      {
        if slots' != slots {
          RefsRebind(s.procs, cur, s'.procs[cur], d, slots'[d], g);
        } else {
          RefsSameSlots(s.procs, s'.procs, g);
        }
      }
      forall q | 0 <= q < |s'.procs|
        ensures ProcOk(cfg, |s'.objs|, s'.procs[q])
      {
        assert ProcOk(cfg, |s.objs|, s.procs[q]);
        if q == cur {
          forall e | 0 <= e < NSLOTS
            ensures SlotOk(cfg, |s'.objs|, e, slots'[e])
          {
            assert SlotOk(cfg, |s.objs|, e, slots[e]);
          }
        }
      }
    }
  }

  /** shm_close of a bound slot (or one out of range) keeps the kernel consistent. */
  lemma CloseKeeps(cfg: Config, s: Sys, cur: nat, d: int)
    requires cfg.Ok() && Consistent(cfg, s) && cur < |s.procs|
    requires 0 <= d < cfg.localSlots ==> s.procs[cur].slots[d].obj.Some?
    ensures Callable(s, cur) && Shaped(s.objs)
    ensures Consistent(cfg, Close(cfg, s, cur, d).s)
  {
    ConsistentCallable(cfg, s, cur);
    if 0 <= d < cfg.localSlots {
      var s' := Close(cfg, s, cur, d).s;
      BoundNamed(cfg, s, cur, d);
      assert s'.procs == s.procs[cur := s'.procs[cur]] && s'.procs[cur].slots == s.procs[cur].slots[d := Unbound];
      forall g | 0 <= g < |s'.objs|
        ensures ObjectOk(cfg, s'.objs[g]) && s'.objs[g].refCount == Refs(s'.procs, g)
      {
        RefsRebind(s.procs, cur, s'.procs[cur], d, Unbound, g);
        assert ObjectOk(cfg, s.objs[g]);
      }
      forall q | 0 <= q < |s'.procs|
        ensures ProcOk(cfg, |s'.objs|, s'.procs[q])
      {
        assert ProcOk(cfg, |s.objs|, s.procs[q]);
        if q == cur {
          forall e | 0 <= e < NSLOTS
            ensures SlotOk(cfg, |s'.objs|, e, s'.procs[q].slots[e])
          {
            assert SlotOk(cfg, |s.objs|, e, s.procs[q].slots[e]);
          }
        }
      }
    }
  }

  // ---------------------------------------------------------------------
  // The system calls on the kernel's arrays

  /** Reversing s with x after it puts x first. */
  lemma {:induction false} ReversedSnoc(s: seq<bv32>, x: bv32)
    ensures Reversed(s + [x]) == [x] + Reversed(s)
  {
    if s != [] {
      assert (s + [x])[1..] == s[1..] + [x];
      ReversedSnoc(s[1..], x);
    }
  }

  /** A size sz past the page-aligned address of page n ends Pages(sz) pages after n. */
  lemma PagesShift(n: nat, sz: nat)
    ensures (n * PGSIZE) / PGSIZE == n && Pages(n * PGSIZE + sz) == n + Pages(sz)
  {
    assert n * PGSIZE + sz + PGSIZE - 1 == n * PGSIZE + (sz + PGSIZE - 1);
  }

  /** The window's address, in pages. */
  lemma ShmBaseDiv(cfg: Config, d: nat)
    requires cfg.Ok() && d < NSLOTS
    ensures ShmBase(cfg, d) / PGSIZE == BasePage(cfg, d)
  {
    ShmBasePage(cfg, d);
    PagesShift(BasePage(cfg, d), 0);
  }

  /**
   * init_shared_mem_objects (kernel/shmem.c:42-52): every registry entry
   * becomes free, with no references, no pages, no size, no name, and its
   * index as id.
   */
  method InitSharedMemObjects(k: Kernel)
    modifies k.objs
    ensures forall g :: 0 <= g < k.objs.Length ==>
      k.objs[g] == old(k.objs[g]).(id := g, name := "", refCount := 0, allocatedPages := -1, size := 0)
  {
    for i := 0 to k.objs.Length
      invariant forall g :: 0 <= g < i ==>
        k.objs[g] == old(k.objs[g]).(id := g, name := "", refCount := 0, allocatedPages := -1, size := 0)
      invariant forall g :: i <= g < k.objs.Length ==> k.objs[g] == old(k.objs[g])
    {
      k.objs[i] := k.objs[i].(id := i, name := "", refCount := 0, allocatedPages := -1, size := 0);
    }
  }

  /**
   * After init_shared_mem_objects, a kernel whose processes have no bound
   * slot is consistent.
   */
  lemma {:induction false} InitConsistent(cfg: Config, s: Sys)
    requires cfg.Ok() && |s.objs| == GLOBAL_NUMBER_OF_SHM_OBJ && s.initproc < |s.procs|
    requires forall g :: 0 <= g < |s.objs| ==>
      |s.objs[g].memory| == NMEMORY && s.objs[g].name == "" && s.objs[g].refCount == 0 &&
      s.objs[g].allocatedPages == -1 && s.objs[g].size == 0
    requires forall p :: 0 <= p < |s.procs| ==> s.procs[p].slots == seq(NSLOTS, _ => Unbound)
    ensures Consistent(cfg, s)
  {
    forall g | 0 <= g < |s.objs|
      ensures ObjectOk(cfg, s.objs[g]) && s.objs[g].refCount == Refs(s.procs, g)
    {
      RefsNone(s.procs, g);
    }
  }

  /** Processes with no bound slot count no reference. */
  lemma {:induction false} RefsNone(procs: seq<Proc>, g: nat)
    requires forall p :: 0 <= p < |procs| ==> procs[p].slots == seq(NSLOTS, _ => Unbound)
    ensures Refs(procs, g) == 0
  {
    if procs != [] {
      SlotRefsNone(procs[|procs| - 1].slots, g);
      RefsNone(procs[..|procs| - 1], g);
    }
  }

  /** check_if_exists (kernel/shmem.c:78-91), proved against NamedSlotFrom. */
  method CheckIfExists(k: Kernel, cur: nat, name: string) returns (r: int)
    requires cur < k.procs.Length && SlotsIn(k.procs[cur].slots, k.objs.Length)
    ensures r == NamedSlotFrom(k.objs[..], k.procs[cur].slots, name, 0)
  {
    var slots := k.procs[cur].slots;
    for i := 0 to NSLOTS
      invariant NamedSlotFrom(k.objs[..], slots, name, i) == NamedSlotFrom(k.objs[..], slots, name, 0)
    {
      if slots[i].obj.Some? && k.objs[slots[i].obj.value].name == name {
        return i;
      }
    }
    return -1;
  }

  /** find_free_slot_local (kernel/shmem.c:93-100), proved against FreeSlotFrom. */
  method FindFreeSlotLocal(k: Kernel, cur: nat) returns (r: int)
    requires cur < k.procs.Length && |k.procs[cur].slots| == NSLOTS
    ensures r == FreeSlotFrom(k.procs[cur].slots, 0)
  {
    var slots := k.procs[cur].slots;
    for i := 0 to NSLOTS
      invariant FreeSlotFrom(slots, i) == FreeSlotFrom(slots, 0)
    {
      if slots[i].obj.None? {
        return i;
      }
    }
    return -1;
  }

  /** fetch_shared_memory_object (kernel/shmem.c:55-76), proved against FetchFrom. */
  method FetchSharedMemoryObject(k: Kernel, name: string) returns (index: int, exist: bool)
    ensures Fetched(index, exist) == FetchFrom(k.objs[..], name, 0, -1)
  {
    var firstFree := -1;
    for i := 0 to k.objs.Length
      invariant -1 <= firstFree < k.objs.Length
      invariant FetchFrom(k.objs[..], name, i, firstFree) == FetchFrom(k.objs[..], name, 0, -1)
    {
      if k.objs[i].name == name {
        return i, true;
      }
      if firstFree < 0 && k.objs[i].name == "" {
        firstFree := i;
      }
    }
    return firstFree, false;
  }

  /** edit_shm_obj (kernel/shmem.c:102-109): the name is copied in unless the entry exists, and one more reference is counted. */
  method EditShmObj(k: Kernel, g: nat, name: string, exist: bool)
    requires g < k.objs.Length
    modifies k.objs
    ensures k.objs[..] == old(k.objs[..])[g := Claimed(old(k.objs[g]), name, exist)]
  {
    if !exist {
      k.objs[g] := k.objs[g].(name := name);
    }
    k.objs[g] := k.objs[g].(refCount := k.objs[g].refCount + 1);
  }

  /**
   * shm_open (kernel/shmem.c:143-161) by process cur, proved against Open
   * (which OpenKeeps shows keeps the kernel consistent).
   */
  method ShmOpen(k: Kernel, cur: nat, name: string) returns (r: int)
    requires Callable(k.State(), cur)
    modifies k.objs, k.procs
    ensures Open(old(k.State()), cur, name) == Step(r, k.State())
  {
    ghost var s := k.State();
    var exist := CheckIfExists(k, cur, name);
    if exist >= 0 {
      return exist;
    }
    var free := FindFreeSlotLocal(k, cur);
    var index, globExist := FetchSharedMemoryObject(k, name);
    if free < 0 || index < 0 {
      return -1;
    }
    assert k.objs[..] == s.objs && k.procs[..] == s.procs;
    assert Fetched(index, globExist) == FetchFrom(s.objs, name, 0, -1);
    OpenBinds(s, cur, name);
    EditShmObj(k, index, name, globExist);
    var p := k.procs[cur];
    k.procs[cur] := p.(slots := p.slots[free := p.slots[free].(obj := Some(index))]);
    assert k.objs[..] == Open(s, cur, name).s.objs;
    assert k.procs[..] == Open(s, cur, name).s.procs;
    return free;
  }

  /**
   * clean_shm_mem1 (kernel/shmem.c:127-132) on object o: kfree of its
   * pages 0..allocated_pages in turn, after which it holds none.
   */
  method CleanShmMem1(o: ShmObject, ph: Phys) returns (o': ShmObject, ph': Phys)
    requires |o.memory| == NMEMORY && -1 <= o.allocatedPages < NMEMORY
    ensures o' == o.(allocatedPages := -1)
    ensures ph' == ph.(free := FreeFrames(ph.free, o.memory[..o.allocatedPages + 1]))
  {
    ph' := ph;
    for i := 0 to o.allocatedPages + 1
      invariant ph' == ph.(free := Reversed(o.memory[..i]) + ph.free)
    {
      ph' := ph'.(free := Kfree(ph'.free, o.memory[i]));
      ReversedSnoc(o.memory[..i], o.memory[i]);
      assert o.memory[..i + 1] == o.memory[..i] + [o.memory[i]];
    }
    o' := o.(allocatedPages := -1);
  }

  /**
   * The loop of shm_trunc (kernel/shmem.c:215-225) on object o from
   * address up to newSize, proved against TruncFrom: it runs while the
   * address stays below newSize, that is for Pages(newSize - address)
   * pages (PagesBound), and reports whether kalloc kept up.
   */
  method TruncPages(o: ShmObject, ph: Phys, address: nat, newSize: nat) returns (t: Sized)
    requires address <= newSize && |o.memory| == NMEMORY
    requires -1 <= o.allocatedPages && o.allocatedPages + Pages(newSize - address) < NMEMORY
    ensures t == TruncFrom(o, ph, Pages(newSize - address))
  {
    var obj, mem, a := o, ph, address;
    ghost var n: nat := 0;
    ghost var left := Pages(newSize - address);
    while a < newSize
      invariant n <= left && a == address + n * PGSIZE
      invariant |obj.memory| == NMEMORY && -1 <= obj.allocatedPages && obj.allocatedPages + left - n < NMEMORY
      invariant TruncFrom(obj, mem, left - n) == TruncFrom(o, ph, left)
      decreases newSize - a
    {
      PagesBound(n, newSize - address);
      if mem.free == [] {
        obj, mem := CleanShmMem1(obj, mem);
        return Sized(false, obj, mem);
      }
      var memory := mem.free[0];
      mem := TakeZeroed(mem);
      obj := obj.(allocatedPages := obj.allocatedPages + 1);
      obj := obj.(memory := obj.memory[obj.allocatedPages := memory]);
      a := a + PGSIZE;
      n := n + 1;
    }
    PagesBound(n, newSize - address);
    return Sized(true, obj, mem);
  }

  /**
   * shm_trunc (kernel/shmem.c:196-229) by process cur, proved against
   * Trunc (which TruncKeeps shows keeps the kernel consistent).
   */
  method ShmTrunc(k: Kernel, cur: nat, d: int, size: int) returns (r: int)
    requires k.cfg.Ok() && Callable(k.State(), cur) && Shaped(k.objs[..])
    modifies k, k.objs
    ensures Trunc(k.cfg, old(k.State()), cur, d, size) == Step(r, k.State())
  {
    if d >= k.cfg.localSlots as int || d < 0 {
      return -1;
    }
    var slot := k.procs[cur].slots[d];
    if slot.obj.None? {
      return -1;
    }
    var pages := RoundUpDivision(size, PGSIZE);
    if pages > k.cfg.maxPages as int || size <= 0 {
      return -1;
    }
    var g := slot.obj.value;
    if k.objs[g].size != 0 {
      return -1;
    }
    RoundUpDivisionPages(size);
    var address := ShmBase(k.cfg, d);
    var newSize := address + size;
    assert newSize - address == size;
    var t := TruncPages(k.objs[g], k.phys, address, newSize);
    k.phys := t.ph;
    if !t.ok {
      k.objs[g] := t.o;
      return -1;
    }
    k.objs[g] := t.o.(size := size);
    return newSize;
  }

  /**
   * unmap (kernel/shmem.c:111-125) from address from up to address to,
   * proved against UnmapFrom: the loop starts at PGROUNDDOWN(from) and
   * runs while the address is below to, that is up to page Pages(to)
   * (PagesBound). walkpgdir without alloc finds the entry exactly when
   * the page's table is present.
   */
  method Unmap(pd: PageDir, from: nat, to: nat) returns (r: PageDir)
    ensures r == UnmapFrom(pd, from / PGSIZE, Pages(to))
  {
    r := pd;
    var address := from / PGSIZE * PGSIZE;
    ghost var n: nat := from / PGSIZE;
    while address < to
      invariant address == n * PGSIZE && from / PGSIZE <= n
      invariant UnmapFrom(r, n, Pages(to)) == UnmapFrom(pd, from / PGSIZE, Pages(to))
    {
      PagesBound(n, to);
      PagesShift(n, 0);
      var page := address / PGSIZE;
      var w := WalkPgDir(r, [], page, false);
      if w.pte.Some? && Present(Lookup(r, page).value) {
        r := SetPte(r, page, 0);
      }
      address := address + PGSIZE;
      n := n + 1;
    }
    PagesBound(n, to);
  }

  /**
   * The loop of shm_map (kernel/shmem.c:241-249) over frames, the first
   * going to virtual page n, proved against ShmMapFrom. Its call of
   * mappages on the PGSIZE bytes of page n + i is one step of mappages'
   * own loop (MapPagesOnePage); the unmap of the loop's failure path is
   * left to ShmMap.
   */
  method ShmMapPages(pd: PageDir, free: FreeList, frames: seq<bv32>, n: nat, perm: bv32) returns (m: ShmMapped)
    ensures m == ShmMapFrom(pd, free, frames, n, true, perm)
  {
    var dir, pool, rest, first := pd, free, frames, true;
    var page: nat := n;
    while rest != []
      invariant page + |rest| == n + |frames|
      invariant ShmMapFrom(dir, pool, rest, page, first, perm) == ShmMapFrom(pd, free, frames, n, true, perm)
    {
      var stop;
      stop, dir, pool := ShmMapPage(dir, pool, rest, page, first, perm);
      if stop.Some? {
        return stop.value;
      }
      rest, page, first := rest[1..], page + 1, false;
    }
    return ShmMapped(Mapped, dir, pool, page);
  }

  /**
   * One turn of the loop of shm_map (kernel/shmem.c:242-248), mapping
   * frames[0] at page n: the loop's result when the turn ends it, else the
   * directory and the free list it goes on with.
   */
  method ShmMapPage(pd: PageDir, free: FreeList, frames: seq<bv32>, n: nat, first: bool, perm: bv32)
    returns (stop: Option<ShmMapped>, dir: PageDir, pool: FreeList)
    requires frames != []
    ensures stop.Some? ==> stop.value == ShmMapFrom(pd, free, frames, n, first, perm)
    ensures stop.None? ==> ShmMapFrom(dir, pool, frames[1..], n + 1, false, perm) == ShmMapFrom(pd, free, frames, n, first, perm)
  {
    var r := MapStep(pd, free, n, frames[0], perm);
    if r.status == Remap || (r.status == NoMemory && !first) {
      return Some(ShmMapped(r.status, r.pd, r.free, n)), pd, free;
    }
    return None, r.pd, r.free;
  }

  /** The mapping part of shm_map (kernel/shmem.c:240-252), proved against MapProc. */
  method MapInProc(cfg: Config, p: Proc, free: FreeList, frames: seq<bv32>, d: nat, flags: bv32) returns (q: ProcMapped)
    requires cfg.Ok() && d < |p.slots| && d < NSLOTS
    ensures q == MapProc(cfg, p, free, frames, d, flags)
  {
    var base := BasePage(cfg, d);
    var m := ShmMapPages(p.pgdir, free, frames, base, ShmPerm(flags));
    if m.status == Remap {
      return ProcMapped(true, -1, p, free);
    }
    if m.status == NoMemory {
      PagesShift(base, 0);
      PagesShift(m.at, 0);
      var pd := Unmap(m.pd, base * PGSIZE, m.at * PGSIZE);
      return ProcMapped(false, -1, p.(pgdir := pd), m.free);
    }
    return ProcMapped(false, 0, p.(pgdir := m.pd, slots := p.slots[d := p.slots[d].(va := ShmBase(cfg, d), flags := flags)]), m.free);
  }

  /**
   * shm_map (kernel/shmem.c:231-254) by process cur, proved against Map
   * (which MapKeeps shows keeps the kernel consistent unless it panics):
   * panicked stands for mappages' panic("remap"), which halts the kernel.
   */
  method ShmMap(k: Kernel, cur: nat, d: int, flags: bv32) returns (r: int, panicked: bool)
    requires k.cfg.Ok() && Callable(k.State(), cur) && Shaped(k.objs[..])
    modifies k, k.procs
    ensures Map(k.cfg, old(k.State()), cur, d, flags) == if panicked then Panic("remap") else Step(r, k.State())
  {
    if d >= k.cfg.localSlots as int || d < 0 {
      return -1, false;
    }
    var p := k.procs[cur];
    var slot := p.slots[d];
    if slot.va != 0 || slot.obj.None? {
      return -1, false;
    }
    var o := k.objs[slot.obj.value];
    var q := MapInProc(k.cfg, p, k.phys.free, o.memory[..o.allocatedPages + 1], d, flags);
    if q.panicked {
      return -1, true;
    }
    k.procs[cur], k.phys := q.p, k.phys.(free := q.free);
    return q.r, false;
  }

  /**
   * shm_close_logic (kernel/shmem.c:163-188) for process cur, which
   * shm_close (kernel/shmem.c:189-191) calls for the current process,
   * proved against Close (which CloseKeeps shows keeps the kernel
   * consistent). clean_shared_mem_obj and clean_local_shared_mem_obj are
   * the two record updates after clean_shm_mem1.
   */
  method ShmClose(k: Kernel, cur: nat, d: int) returns (r: int)
    requires k.cfg.Ok() && Callable(k.State(), cur) && Shaped(k.objs[..])
    requires 0 <= d < k.cfg.localSlots ==> k.procs[cur].slots[d].obj.Some?
    modifies k, k.objs, k.procs
    ensures Close(k.cfg, old(k.State()), cur, d) == Step(r, k.State())
  {
    if d >= k.cfg.localSlots as int || d < 0 {
      return -1;
    }
    ghost var s := k.State();
    var p := k.procs[cur];
    var slot := p.slots[d];
    var g := slot.obj.value;
    var pd := p.pgdir;
    if slot.va != 0 {
      var oldsz := ShmBase(k.cfg, d);
      var newsz := oldsz + k.objs[g].size;
      ShmBasePage(k.cfg, d);
      PagesShift(BasePage(k.cfg, d), k.objs[g].size);
      pd := Unmap(p.pgdir, oldsz, newsz);
    }
    var o, ph := DropReference(k.objs[g], k.phys);
    CloseBound(k.cfg, s, cur, d, pd, o, ph);
    k.phys := ph;
    k.objs[g] := o;
    k.procs[cur] := p.(pgdir := pd, slots := p.slots[d := Unbound]);
    assert k.objs[..] == s.objs[g := o];
    assert k.procs[..] == s.procs[cur := p.(pgdir := pd, slots := p.slots[d := Unbound])];
    return 1;
  }

  /**
   * The release of the object in shm_close_logic (kernel/shmem.c:176-185):
   * one reference fewer and, at none left, clean_shm_mem1 frees its pages
   * and clean_shared_mem_obj empties it.
   */
  method DropReference(o: ShmObject, ph: Phys) returns (o': ShmObject, ph': Phys)
    requires |o.memory| == NMEMORY && -1 <= o.allocatedPages < NMEMORY
    ensures o' == if o.refCount - 1 == 0 then Emptied(o) else Released(o)
    ensures ph' == if o.refCount - 1 == 0 then ph.(free := FreeFrames(ph.free, o.memory[..o.allocatedPages + 1])) else ph
  {
    o' := o.(refCount := o.refCount - 1);
    ph' := ph;
    if o'.refCount == 0 {
      var cleaned;
      cleaned, ph' := CleanShmMem1(o', ph);
      o' := cleaned.(refCount := 0, size := 0, name := "");
    }
  }

  /**
   * Close on a slot in range, as one state: the given directory, entry
   * and memory are the ones it computes.
   */
  lemma CloseBound(cfg: Config, s: Sys, cur: nat, d: nat, pd: PageDir, o: ShmObject, ph: Phys)
    requires cfg.Ok() && Callable(s, cur) && Shaped(s.objs)
    requires d < cfg.localSlots && s.procs[cur].slots[d].obj.Some?
    requires var p := s.procs[cur];
      var o0 := s.objs[p.slots[d].obj.value];
      pd == (if p.slots[d].va != 0 then UnmapFrom(p.pgdir, BasePage(cfg, d), BasePage(cfg, d) + Pages(o0.size)) else p.pgdir) &&
      o == (if o0.refCount - 1 == 0 then Emptied(o0) else Released(o0)) &&
      ph == (if o0.refCount - 1 == 0 then s.phys.(free := FreeFrames(s.phys.free, o0.memory[..o0.allocatedPages + 1])) else s.phys)
    ensures var p := s.procs[cur];
      Close(cfg, s, cur, d) ==
        Step(1, Sys(s.objs[p.slots[d].obj.value := o], s.procs[cur := p.(pgdir := pd, slots := p.slots[d := Unbound])], ph, s.nextpid, s.initproc))
  {
  }
}
