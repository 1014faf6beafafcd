/**
 * The parts of the process table code (kernel/proc.c) that the shared
 * memory objects depend on: claiming an entry (allocproc), waking and
 * killing processes, handing children on at exit, copying the local
 * slots at fork (with copy_shm_vm_1) and releasing them when wait reaps
 * a zombie (with clean_shm_mem and unmap1).
 */
module Proc {
  import opened Wrappers
  import opened Vm
  import opened KernelState
  import opened Shmem

  // ---------------------------------------------------------------------
  // allocproc

  /** The first UNUSED entry at or after i, or -1. */
  function FirstUnused(procs: seq<Proc>, i: nat): (r: int)
    ensures r == -1 || i <= r < |procs|
    decreases |procs| - i
  {
    if i >= |procs| then -1
    else if procs[i].state == UNUSED then i
    else FirstUnused(procs, i + 1)
  }

  /** FirstUnused finds the lowest UNUSED entry from i on, and -1 exactly when there is none. */
  lemma {:induction false} FirstUnusedFirst(procs: seq<Proc>, i: nat)
    ensures var r := FirstUnused(procs, i);
      (r == -1 <==> forall j :: i <= j < |procs| ==> procs[j].state != UNUSED) &&
      (r != -1 ==> procs[r].state == UNUSED && forall j :: i <= j < r ==> procs[j].state != UNUSED)
    decreases |procs| - i
  {
    if i < |procs| && procs[i].state != UNUSED {
      FirstUnusedFirst(procs, i + 1);
    }
  }

  /** What allocproc gives back: the index of the claimed entry (-1 for the source's 0) and the tables. */
  datatype Claimed = Claimed(p: int, s: Sys)

  /**
   * allocproc (kernel/proc.c:76-119): the first UNUSED entry becomes
   * EMBRYO with pid nextpid, and nextpid moves on; its kernel stack is
   * the page kalloc hands out. When kalloc fails the entry goes back to
   * UNUSED, keeping the pid it was given (and nextpid its increment), and
   * the result is -1. The trap frame and context laid out on the stack
   * are not part of this model.
   */
  function Allocate(s: Sys): Claimed
  {
    var i := FirstUnused(s.procs, 0);
    if i < 0 then Claimed(-1, s)
    else
      var p := s.procs[i].(state := EMBRYO, pid := s.nextpid);
      if s.phys.free == [] then
        Claimed(-1, s.(procs := s.procs[i := p.(kstack := 0, state := UNUSED)], nextpid := s.nextpid + 1))
      else
        Claimed(i, s.(procs := s.procs[i := p.(kstack := s.phys.free[0])], nextpid := s.nextpid + 1,
                      phys := s.phys.(free := s.phys.free[1..])))
  }

  /**
   * allocproc returns -1 and changes nothing when no entry is UNUSED.
   * Otherwise the first UNUSED entry, alone, gets pid nextpid and nextpid
   * goes up by one; the entry is returned as EMBRYO with the head of the
   * free list as its kernel stack when there is a free page, and is left
   * UNUSED with -1 returned when there is none.
   */
  lemma AllocateClaims(s: Sys)
    ensures var c := Allocate(s);
      var i := FirstUnused(s.procs, 0);
      ((forall j :: 0 <= j < |s.procs| ==> s.procs[j].state != UNUSED) ==> c == Claimed(-1, s)) &&
      (i != -1 ==>
        s.procs[i].state == UNUSED && (forall j :: 0 <= j < i ==> s.procs[j].state != UNUSED) &&
        c.s.procs == s.procs[i := c.s.procs[i]] && c.s.nextpid == s.nextpid + 1 &&
        c.s.procs[i] == s.procs[i].(pid := s.nextpid, state := c.s.procs[i].state, kstack := c.s.procs[i].kstack) &&
        (s.phys.free != [] ==> c.p == i && c.s.procs[i].state == EMBRYO && c.s.procs[i].kstack == s.phys.free[0] &&
                               c.s.phys.free == s.phys.free[1..]) &&
        (s.phys.free == [] ==> c.p == -1 && c.s.procs[i].state == UNUSED && c.s.phys == s.phys))
  {
    FirstUnusedFirst(s.procs, 0);
  }

  /** Process entries that keep their slots and become UNUSED only if they were keep every count. */
  lemma SameSlotsKeep(cfg: Config, s: Sys, procs: seq<Proc>)
    requires Consistent(cfg, s) && |procs| == |s.procs|
    requires forall p :: 0 <= p < |procs| ==> procs[p].slots == s.procs[p].slots
    requires forall p :: 0 <= p < |procs| && procs[p].state == UNUSED ==> s.procs[p].state == UNUSED
    ensures Consistent(cfg, s.(procs := procs))
  {
    forall g | 0 <= g < |s.objs|
      ensures s.objs[g].refCount == Refs(procs, g)
    {
      RefsSameSlots(s.procs, procs, g);
    }
    forall p | 0 <= p < |procs|
      ensures ProcOk(cfg, |s.objs|, procs[p])
    {
      assert ProcOk(cfg, |s.objs|, s.procs[p]);
    }
  }

  /** allocproc keeps the kernel consistent: the entry it claims has no bound slot. */
  lemma AllocateKeeps(cfg: Config, s: Sys)
    requires Consistent(cfg, s)
    ensures Consistent(cfg, Allocate(s).s)
  {
    var c := Allocate(s);
    var i := FirstUnused(s.procs, 0);
    if i != -1 {
      FirstUnusedFirst(s.procs, 0);
      assert ProcOk(cfg, |s.objs|, s.procs[i]);
      assert c.s == s.(procs := c.s.procs, nextpid := c.s.nextpid, phys := c.s.phys);
      SameSlotsKeep(cfg, s.(nextpid := c.s.nextpid, phys := c.s.phys), c.s.procs);
    }
  }

  /** allocproc (kernel/proc.c:76-119) on the process table, proved against Allocate. */
  method AllocProc(k: Kernel) returns (r: int)
    modifies k, k.procs
    ensures Allocate(old(k.State())) == Claimed(r, k.State())
  {
    var i := 0;
    while i < k.procs.Length
      invariant i <= k.procs.Length
      invariant FirstUnused(k.procs[..], i) == FirstUnused(k.procs[..], 0)
    {
      if k.procs[i].state == UNUSED {
        break;
      }
      i := i + 1;
    }
    if i == k.procs.Length {
      return -1;
    }
    k.procs[i] := k.procs[i].(state := EMBRYO, pid := k.nextpid);
    k.nextpid := k.nextpid + 1;
    if k.phys.free == [] {
      k.procs[i] := k.procs[i].(kstack := 0, state := UNUSED);
      return -1;
    }
    k.procs[i] := k.procs[i].(kstack := k.phys.free[0]);
    k.phys := k.phys.(free := k.phys.free[1..]);
    return i;
  }

  // ---------------------------------------------------------------------
  // wakeup1 and kill

  /** A process sleeping on chan made RUNNABLE; any other left as it is. */
  function Wake(p: Proc, chan: Chan): Proc
  {
    if p.state == SLEEPING && p.chan == chan then p.(state := RUNNABLE) else p
  }

  /**
   * wakeup1 (kernel/proc.c:559-567) on the whole table: exactly the
   * processes sleeping on chan change, and they only become RUNNABLE.
   */
  function WakeAll(procs: seq<Proc>, chan: Chan): (r: seq<Proc>)
    ensures |r| == |procs|
    ensures forall i :: 0 <= i < |procs| ==> r[i] == procs[i].(state := r[i].state)
    ensures forall i :: 0 <= i < |procs| ==>
      (r[i].state != procs[i].state <==> procs[i].state == SLEEPING && procs[i].chan == chan)
    ensures forall i :: 0 <= i < |procs| && r[i].state != procs[i].state ==> r[i].state == RUNNABLE
  {
    seq(|procs|, i requires 0 <= i < |procs| => Wake(procs[i], chan))
  }

  /** wakeup1 keeps the kernel consistent. */
  lemma WakeKeeps(cfg: Config, s: Sys, chan: Chan)
    requires Consistent(cfg, s)
    ensures Consistent(cfg, s.(procs := WakeAll(s.procs, chan)))
  {
    SameSlotsKeep(cfg, s, WakeAll(s.procs, chan));
  }

  /** wakeup1 (kernel/proc.c:559-567), proved against WakeAll. */
  method Wakeup1(k: Kernel, chan: Chan)
    modifies k.procs
    ensures k.procs[..] == WakeAll(old(k.procs[..]), chan)
  {
    for i := 0 to k.procs.Length
      invariant forall j :: 0 <= j < i ==> k.procs[j] == Wake(old(k.procs[j]), chan)
      invariant forall j :: i <= j < k.procs.Length ==> k.procs[j] == old(k.procs[j])
    {
      if k.procs[i].state == SLEEPING && k.procs[i].chan == chan {
        k.procs[i] := k.procs[i].(state := RUNNABLE);
      }
    }
  }

  /** The first entry at or after i whose pid is pid, or -1. */
  function FirstWithPid(procs: seq<Proc>, pid: int, i: nat): (r: int)
    ensures r == -1 || i <= r < |procs|
    decreases |procs| - i
  {
    if i >= |procs| then -1
    else if procs[i].pid == pid then i
    else FirstWithPid(procs, pid, i + 1)
  }

  /** FirstWithPid finds the lowest entry with the pid from i on, and -1 exactly when there is none. */
  lemma {:induction false} FirstWithPidFirst(procs: seq<Proc>, pid: int, i: nat)
    ensures var r := FirstWithPid(procs, pid, i);
      (r == -1 <==> forall j :: i <= j < |procs| ==> procs[j].pid != pid) &&
      (r != -1 ==> procs[r].pid == pid && forall j :: i <= j < r ==> procs[j].pid != pid)
    decreases |procs| - i
  {
    if i < |procs| && procs[i].pid != pid {
      FirstWithPidFirst(procs, pid, i + 1);
    }
  }

  datatype Killed = Killed(r: int, procs: seq<Proc>)

  /**
   * kill (kernel/proc.c:581-599): the first entry with the pid is marked
   * killed and, if it sleeps, made RUNNABLE; 0, or -1 when no entry has
   * the pid.
   */
  function KillPid(procs: seq<Proc>, pid: int): Killed
  {
    var i := FirstWithPid(procs, pid, 0);
    if i < 0 then Killed(-1, procs)
    else Killed(0, procs[i := procs[i].(killed := true, state := if procs[i].state == SLEEPING then RUNNABLE else procs[i].state)])
  }

  /**
   * kill returns -1 and changes nothing exactly when no entry has the pid;
   * otherwise it returns 0, the first entry with the pid is killed and no
   * longer sleeping (RUNNABLE if it slept, its state unchanged otherwise),
   * and no other entry changes.
   */
  lemma KillEffect(procs: seq<Proc>, pid: int)
    ensures var k := KillPid(procs, pid);
      var i := FirstWithPid(procs, pid, 0);
      (k.r == -1 <==> forall j :: 0 <= j < |procs| ==> procs[j].pid != pid) &&
      (k.r == -1 ==> k.procs == procs) &&
      (k.r == 0 ==>
        procs[i].pid == pid && (forall j :: 0 <= j < i ==> procs[j].pid != pid) &&
        k.procs == procs[i := k.procs[i]] && k.procs[i].killed && k.procs[i].state != SLEEPING &&
        k.procs[i] == procs[i].(killed := true, state := k.procs[i].state) &&
        (k.procs[i].state != procs[i].state ==> procs[i].state == SLEEPING && k.procs[i].state == RUNNABLE))
  {
    FirstWithPidFirst(procs, pid, 0);
  }

  /** kill keeps the kernel consistent. */
  lemma KillKeeps(cfg: Config, s: Sys, pid: int)
    requires Consistent(cfg, s)
    ensures Consistent(cfg, s.(procs := KillPid(s.procs, pid).procs))
  {
    SameSlotsKeep(cfg, s, KillPid(s.procs, pid).procs);
  }

  /** kill (kernel/proc.c:581-599), proved against KillPid. */
  method Kill(k: Kernel, pid: int) returns (r: int)
    modifies k.procs
    ensures KillPid(old(k.procs[..]), pid) == Killed(r, k.procs[..])
  {
    for i := 0 to k.procs.Length
      invariant k.procs[..] == old(k.procs[..])
      invariant FirstWithPid(k.procs[..], pid, i) == FirstWithPid(k.procs[..], pid, 0)
    {
      if k.procs[i].pid == pid {
        k.procs[i] := k.procs[i].(killed := true);
        if k.procs[i].state == SLEEPING {
          k.procs[i] := k.procs[i].(state := RUNNABLE);
        }
        return 0;
      }
    }
    return -1;
  }

  // ---------------------------------------------------------------------
  // exit

  /** The channel exit wakes: the parent's entry, or address 0 for a process without one. */
  function ParentChan(p: Proc): Chan
  {
    if p.parent.Some? then OnProc(p.parent.value) else OnAddr(0)
  }

  /**
   * The loop of exit (kernel/proc.c:309-315) from entry i on: each child
   * of cur gets init as its parent, and one that is already a ZOMBIE
   * wakes init.
   */
  function ReparentFrom(procs: seq<Proc>, cur: nat, init: nat, i: nat): (r: seq<Proc>)
    ensures |r| == |procs|
    decreases |procs| - i
  {
    if i >= |procs| then procs
    else if procs[i].parent == Some(cur) then
      var ps := procs[i := procs[i].(parent := Some(init))];
      ReparentFrom(if ps[i].state == ZOMBIE then WakeAll(ps, OnProc(init)) else ps, cur, init, i + 1)
    else ReparentFrom(procs, cur, init, i + 1)
  }

  /**
   * exit (kernel/proc.c:280-321) of process cur on the process table:
   * None for panic("init exiting"); otherwise the parent is woken, the
   * children are handed to init and cur becomes a ZOMBIE.
   */
  function ExitProcs(procs: seq<Proc>, cur: nat, init: nat): Option<seq<Proc>>
    requires cur < |procs|
  {
    if cur == init then None
    else
      var r := ReparentFrom(WakeAll(procs, ParentChan(procs[cur])), cur, init, 0);
      Some(r[cur := r[cur].(state := ZOMBIE)])
  }

  /** Some child of cur at or after entry i is a ZOMBIE. */
  predicate ZombieChildFrom(procs: seq<Proc>, cur: nat, i: nat)
    decreases |procs| - i
  {
    i < |procs| && ((procs[i].parent == Some(cur) && procs[i].state == ZOMBIE) || ZombieChildFrom(procs, cur, i + 1))
  }

  /** Tables that agree on parents and on who is a ZOMBIE from i on agree on ZombieChildFrom. */
  lemma {:induction false} ZombieChildSame(procs: seq<Proc>, procs': seq<Proc>, cur: nat, i: nat)
    requires |procs| == |procs'|
    requires forall j :: i <= j < |procs| ==>
      procs'[j].parent == procs[j].parent && (procs'[j].state == ZOMBIE <==> procs[j].state == ZOMBIE)
    ensures ZombieChildFrom(procs', cur, i) == ZombieChildFrom(procs, cur, i)
    decreases |procs| - i
  {
    if i < |procs| {
      ZombieChildSame(procs, procs', cur, i + 1);
    }
  }

  /** p with init as its parent if cur was. */
  function Adopted(p: Proc, cur: nat, init: nat): Proc
  {
    if p.parent == Some(cur) then p.(parent := Some(init)) else p
  }

  /**
   * The loop of exit from entry i gives each entry from i on init as
   * parent if it was cur's child, and wakes every process sleeping on
   * init's entry if some child of cur from i on was a ZOMBIE.
   */
  lemma {:induction false} ReparentEffect(procs: seq<Proc>, cur: nat, init: nat, i: nat, q: nat)
    requires i <= |procs| && q < |procs|
    ensures var a := if q >= i then Adopted(procs[q], cur, init) else procs[q];
      ReparentFrom(procs, cur, init, i)[q] == if ZombieChildFrom(procs, cur, i) then Wake(a, OnProc(init)) else a
    decreases |procs| - i
  {
    if i < |procs| {
      if procs[i].parent == Some(cur) {
        var ps := procs[i := procs[i].(parent := Some(init))];
        var next := if ps[i].state == ZOMBIE then WakeAll(ps, OnProc(init)) else ps;
        ReparentEffect(next, cur, init, i + 1, q);
        ZombieChildSame(procs, next, cur, i + 1);
      } else {
        ReparentEffect(procs, cur, init, i + 1, q);
      }
    }
  }

  /**
   * exit by any process but init: every child of cur gets init as its
   * parent; cur becomes a ZOMBIE; any other process changes state only by
   * waking, when it slept on cur's parent, or on init when cur left a
   * ZOMBIE child; nothing else about any entry changes.
   */
  lemma ExitEffect(procs: seq<Proc>, cur: nat, init: nat, q: nat)
    requires cur < |procs| && q < |procs| && cur != init
    ensures var r := ExitProcs(procs, cur, init).value;
      var p := procs[q];
      |r| == |procs| &&
      r[q] == p.(parent := r[q].parent, state := r[q].state) &&
      r[q].parent == (if p.parent == Some(cur) then Some(init) else p.parent) &&
      (q == cur ==> r[q].state == ZOMBIE) &&
      (q != cur ==> r[q].state == if p.state == SLEEPING &&
                     (p.chan == ParentChan(procs[cur]) || (p.chan == OnProc(init) && ZombieChildFrom(procs, cur, 0)))
                   then RUNNABLE else p.state)
  {
    var w := WakeAll(procs, ParentChan(procs[cur]));
    ReparentEffect(w, cur, init, 0, q);
    ZombieChildSame(procs, w, cur, 0);
  }

  /** exit keeps the kernel consistent. */
  lemma ExitKeeps(cfg: Config, s: Sys, cur: nat)
    requires Consistent(cfg, s) && cur < |s.procs| && cur != s.initproc
    ensures Consistent(cfg, s.(procs := ExitProcs(s.procs, cur, s.initproc).value))
  {
    var r := ExitProcs(s.procs, cur, s.initproc).value;
    forall q | 0 <= q < |r|
      ensures r[q].slots == s.procs[q].slots && (r[q].state == UNUSED ==> s.procs[q].state == UNUSED)
    {
      ExitEffect(s.procs, cur, s.initproc, q);
    }
    SameSlotsKeep(cfg, s, r);
  }

  /**
   * exit (kernel/proc.c:280-321) on the process table, proved against
   * ExitProcs: returns whether it panicked with "init exiting". Closing
   * files and the switch to the scheduler are not part of this model.
   */
  method Exit(k: Kernel, cur: nat) returns (panicked: bool)
    requires cur < k.procs.Length
    modifies k.procs
    ensures panicked <==> ExitProcs(old(k.procs[..]), cur, k.initproc).None?
    ensures !panicked ==> k.procs[..] == ExitProcs(old(k.procs[..]), cur, k.initproc).value
  {
    if cur == k.initproc {
      return true;
    }
    Wakeup1(k, ParentChan(k.procs[cur]));
    ghost var w := k.procs[..];
    for i := 0 to k.procs.Length
      invariant ReparentFrom(k.procs[..], cur, k.initproc, i) == ReparentFrom(w, cur, k.initproc, 0)
    {
      if k.procs[i].parent == Some(cur) {
        k.procs[i] := k.procs[i].(parent := Some(k.initproc));
        if k.procs[i].state == ZOMBIE {
          Wakeup1(k, OnProc(k.initproc));
        }
      }
    }
    k.procs[cur] := k.procs[cur].(state := ZOMBIE);
    return false;
  }

  // ---------------------------------------------------------------------
  // fork: the local slots and copy_shm_vm_1

  /** How copy_shm_vm_1 ended: whether mappages panicked, and the child's directory and the free list then. */
  datatype ShmCopied = ShmCopied(panicked: bool, pd: PageDir, free: FreeList)

  /**
   * The loop of copy_shm_vm_1 (kernel/proc.c:205-214) over the frames
   * still to map, the next going to virtual page n: mappages on one page
   * (MapPagesOnePage). A failure is ignored and the loop goes on; a page
   * already mapped panics with "remap".
   */
  function CopyShmFrom(pd: PageDir, free: FreeList, frames: seq<bv32>, n: nat, perm: bv32): (r: ShmCopied)
    decreases |frames|
  {
    if frames == [] then ShmCopied(false, pd, free)
    else
      var m := MapStep(pd, free, n, frames[0], perm);
      if m.status == Remap then ShmCopied(true, pd, free)
      else CopyShmFrom(m.pd, m.free, frames[1..], n + 1, perm)
  }

  /** copy_shm_vm_1 panics exactly when a page of the window was mapped already. */
  lemma {:induction false} CopyShmPanics(pd: PageDir, free: FreeList, frames: seq<bv32>, n: nat, perm: bv32)
    ensures CopyShmFrom(pd, free, frames, n, perm).panicked <==> !WindowFree(pd, n, n + |frames| - 1)
    decreases |frames|
  {
    if frames != [] {
      var m := MapStep(pd, free, n, frames[0], perm);
      MapStepSummary(pd, free, n, frames[0], perm);
      if m.status != Remap {
        CopyShmPanics(m.pd, m.free, frames[1..], n + 1, perm);
        forall j: nat | n < j
          ensures Mapping(m.pd, j) == Mapping(pd, j)
        {
          MapStepFrame(pd, free, n, frames[0], perm, j);
        }
      }
    }
  }

  /** copy_shm_vm_1 leaves every page outside its window as it was. */
  lemma {:induction false} CopyShmOutside(pd: PageDir, free: FreeList, frames: seq<bv32>, n: nat, perm: bv32, m: nat)
    requires m < n || n + |frames| <= m
    ensures Mapping(CopyShmFrom(pd, free, frames, n, perm).pd, m) == Mapping(pd, m)
    decreases |frames|
  {
    if frames != [] {
      var s := MapStep(pd, free, n, frames[0], perm);
      if s.status != Remap {
        MapStepFrame(pd, free, n, frames[0], perm, m);
        CopyShmOutside(s.pd, s.free, frames[1..], n + 1, perm, m);
      }
    }
  }

  /**
   * On a free window, copy_shm_vm_1 maps page n + i to frames[i] with
   * perm|PTE_P, unless the page needed a page table, none was there when
   * it started, and kalloc had none left to give.
   */
  lemma {:induction false} CopyShmMaps(pd: PageDir, free: FreeList, frames: seq<bv32>, n: nat, perm: bv32, m: nat)
    requires WindowFree(pd, n, n + |frames| - 1) && n <= m < n + |frames|
    ensures var pd' := CopyShmFrom(pd, free, frames, n, perm).pd;
      Mapping(pd', m) == Some(frames[m - n] | perm | PTE_P) || (Mapping(pd', m).None? && Pdx(m) !in pd.tables)
    decreases |frames|
  {
    var s := MapStep(pd, free, n, frames[0], perm);
    CopyShmStep(pd, free, frames, n, perm);
    if m == n {
      CopyShmOutside(s.pd, s.free, frames[1..], n + 1, perm, n);
      CopyShmStepFirst(pd, free, frames, n, perm);
    } else {
      CopyShmStepWindow(pd, free, frames, n, perm);
      CopyShmMaps(s.pd, s.free, frames[1..], n + 1, perm, m);
      assert frames[1..][m - (n + 1)] == frames[m - n];
    }
  }

  /** On a free first page copy_shm_vm_1 goes on to the rest of the frames after one step of mappages. */
  lemma CopyShmStep(pd: PageDir, free: FreeList, frames: seq<bv32>, n: nat, perm: bv32)
    requires frames != [] && Mapping(pd, n).None?
    ensures var s := MapStep(pd, free, n, frames[0], perm);
      CopyShmFrom(pd, free, frames, n, perm) == CopyShmFrom(s.pd, s.free, frames[1..], n + 1, perm)
  {
    MapStepSummary(pd, free, n, frames[0], perm);
  }

  /** The first step of copy_shm_vm_1 on a free page maps it, or fails for want of a page table. */
  lemma CopyShmStepFirst(pd: PageDir, free: FreeList, frames: seq<bv32>, n: nat, perm: bv32)
    requires frames != [] && Mapping(pd, n).None?
    ensures var s := MapStep(pd, free, n, frames[0], perm);
      Mapping(s.pd, n) == Some(frames[0] | perm | PTE_P) || (Mapping(s.pd, n).None? && Pdx(n) !in pd.tables)
  {
    var s := MapStep(pd, free, n, frames[0], perm);
    MapStepSummary(pd, free, n, frames[0], perm);
    if s.status == Mapped {
      MapStepMaps(pd, free, n, frames[0], perm);
    }
  }

  /** After its first step, the rest of copy_shm_vm_1's window is still free and no page table is gone. */
  lemma CopyShmStepWindow(pd: PageDir, free: FreeList, frames: seq<bv32>, n: nat, perm: bv32)
    requires frames != [] && WindowFree(pd, n, n + |frames| - 1)
    ensures var s := MapStep(pd, free, n, frames[0], perm);
      WindowFree(s.pd, n + 1, n + |frames| - 1) && pd.tables.Keys <= s.pd.tables.Keys
  {
    var s := MapStep(pd, free, n, frames[0], perm);
    forall j: nat | n < j
      ensures Mapping(s.pd, j) == Mapping(pd, j)
    {
      MapStepFrame(pd, free, n, frames[0], perm, j);
    }
    MapStepTables(pd, free, n, frames[0], perm);
  }

  /**
   * copy_shm_vm_1 (kernel/proc.c:200-216) for slot d of the parent, whose
   * object is o, into the child's directory pd, proved against
   * CopyShmFrom: memory[0..allocated_pages] go to the slot's window, page
   * after page. The flags are masked as ShmPerm says. Its call of
   * mappages on the PGSIZE bytes of one page is one step of mappages' own
   * loop (MapPagesOnePage).
   */
  method CopyShmVm1(cfg: Config, o: ShmObject, pd: PageDir, free: FreeList, d: nat, flags: bv32) returns (r: ShmCopied)
    requires |o.memory| == NMEMORY && -1 <= o.allocatedPages < NMEMORY
    ensures r == CopyShmFrom(pd, free, o.memory[..o.allocatedPages + 1], BasePage(cfg, d), ShmPerm(flags))
  {
    var frames := o.memory[..o.allocatedPages + 1];
    var perm := ShmPerm(flags);
    var dir, pool, rest := pd, free, frames;
    var start: nat := BasePage(cfg, d);
    while rest != []
      invariant CopyShmFrom(dir, pool, rest, start, perm) == CopyShmFrom(pd, free, frames, BasePage(cfg, d), perm)
    {
      var m := MapStep(dir, pool, start, rest[0], perm);
      if m.status == Remap {
        return ShmCopied(true, dir, pool);
      }
      dir, pool, rest, start := m.pd, m.free, rest[1..], start + 1;
    }
    return ShmCopied(false, dir, pool);
  }

  /**
   * What the slot copy at fork needs: distinct parent and child, each with
   * 16 slots naming registry entries, and shaped entries.
   */
  predicate ForkReady(cfg: Config, s: Sys, cur: nat, child: nat)
  {
    cfg.Ok() && cur < |s.procs| && child < |s.procs| && cur != child &&
    |s.procs[cur].slots| == NSLOTS && |s.procs[child].slots| == NSLOTS &&
    SlotsIn(s.procs[cur].slots, |s.objs|) && SlotsIn(s.procs[child].slots, |s.objs|) && Shaped(s.objs)
  }

  /** The parent's slot d is bound to a named object, which fork counts and copies. */
  predicate Shared(s: Sys, cur: nat, d: nat)
    requires cur < |s.procs| && d < |s.procs[cur].slots| && SlotsIn(s.procs[cur].slots, |s.objs|) && d < NSLOTS
  {
    s.procs[cur].slots[d].obj.Some? && s.objs[s.procs[cur].slots[d].obj.value].name != ""
  }

  /** The pages of the object of the parent's slot d, memory[0..allocated_pages]. */
  function SlotFrames(s: Sys, cur: nat, d: nat): seq<bv32>
    requires cur < |s.procs| && d < |s.procs[cur].slots| && SlotsIn(s.procs[cur].slots, |s.objs|) && d < NSLOTS
    requires Shaped(s.objs) && s.procs[cur].slots[d].obj.Some?
  {
    var o := s.objs[s.procs[cur].slots[d].obj.value];
    o.memory[..o.allocatedPages + 1]
  }

  /**
   * The body of fork's slot loop (kernel/proc.c:243-255) for slot d, given
   * how copy_shm_vm_1 went (m): the child's slot becomes the parent's
   * (object, flags and address), a shared slot's object gains a
   * reference, and the child's directory and the free list are the ones
   * m ends with. No other entry changes and every object keeps its name,
   * size and pages.
   */
  function ForkedSlot(s: Sys, cur: nat, child: nat, d: nat, m: ShmCopied): (r: Step)
    requires cur < |s.procs| && child < |s.procs| && d < |s.procs[cur].slots| && d < |s.procs[child].slots|
    requires SlotsIn(s.procs[cur].slots, |s.objs|) && d < NSLOTS
    ensures r.Step? <==> !m.panicked
    ensures r.Step? ==>
      |r.s.procs| == |s.procs| && r.s.procs == s.procs[child := r.s.procs[child]] &&
      r.s.procs[child] == s.procs[child].(slots := s.procs[child].slots[d := s.procs[cur].slots[d]], pgdir := m.pd) &&
      r.s.phys == s.phys.(free := m.free) && |r.s.objs| == |s.objs|
    ensures r.Step? ==> forall g :: 0 <= g < |s.objs| ==>
      r.s.objs[g] == if Shared(s, cur, d) && s.procs[cur].slots[d].obj == Some(g) then Counted(s.objs[g]) else s.objs[g]
  {
    var ps := s.procs[cur].slots[d];
    var c := s.procs[child].(slots := s.procs[child].slots[d := ps], pgdir := m.pd);
    var objs := if Shared(s, cur, d) then s.objs[ps.obj.value := Counted(s.objs[ps.obj.value])] else s.objs;
    if m.panicked then Panic("remap")
    else Step(0, s.(procs := s.procs[child := c], objs := objs, phys := s.phys.(free := m.free)))
  }

  /** Nothing mapped: the child's directory and the free list as they are. */
  function NoCopy(s: Sys, child: nat): ShmCopied
    requires child < |s.procs|
  {
    ShmCopied(false, s.procs[child].pgdir, s.phys.free)
  }

  /**
   * The body of fork's slot loop for slot d, as written: copy_shm_vm_1
   * maps the pages of every shared slot into the child's window, whether
   * or not the parent mapped them.
   */
  function ForkSlotAsWritten(cfg: Config, s: Sys, cur: nat, child: nat, d: nat): Step
    requires ForkReady(cfg, s, cur, child) && d < NSLOTS
  {
    var ps := s.procs[cur].slots[d];
    ForkedSlot(s, cur, child, d,
      if Shared(s, cur, d) then CopyShmFrom(s.procs[child].pgdir, s.phys.free, SlotFrames(s, cur, d), BasePage(cfg, d), ShmPerm(ps.flags))
      else NoCopy(s, child))
  }

  /**
   * The body of fork's slot loop for slot d, corrected: as written, except
   * that the pages of a slot the parent has not mapped (va 0) are not
   * mapped in the child either.
   */
  function ForkSlot(cfg: Config, s: Sys, cur: nat, child: nat, d: nat): (r: Step)
    requires ForkReady(cfg, s, cur, child) && d < NSLOTS
    ensures r.Step? ==> ForkReady(cfg, r.s, cur, child)
  {
    var ps := s.procs[cur].slots[d];
    ForkedSlot(s, cur, child, d,
      if Shared(s, cur, d) && ps.va != 0 then CopyShmFrom(s.procs[child].pgdir, s.phys.free, SlotFrames(s, cur, d), BasePage(cfg, d), ShmPerm(ps.flags))
      else NoCopy(s, child))
  }

  /** Fork's slot loop from slot d on. */
  function ForkSlotsFrom(cfg: Config, s: Sys, cur: nat, child: nat, d: nat): (r: Step)
    requires ForkReady(cfg, s, cur, child) && d <= NSLOTS
    ensures r.Step? ==> ForkReady(cfg, r.s, cur, child)
    decreases NSLOTS - d
  {
    if d == NSLOTS then Step(0, s)
    else
      var r := ForkSlot(cfg, s, cur, child, d);
      if r.Panic? then r else ForkSlotsFrom(cfg, r.s, cur, child, d + 1)
  }

  /**
   * One turn of fork's slot loop keeps the kernel consistent when the
   * child is a live entry whose slot d is still unbound.
   */
  lemma ForkSlotKeeps(cfg: Config, s: Sys, cur: nat, child: nat, d: nat)
    requires ForkReady(cfg, s, cur, child) && d < NSLOTS && Consistent(cfg, s)
    requires s.procs[child].state != UNUSED && s.procs[child].slots[d] == Unbound
    requires ForkSlot(cfg, s, cur, child, d).Step?
    ensures Consistent(cfg, ForkSlot(cfg, s, cur, child, d).s)
  {
    var s' := ForkSlot(cfg, s, cur, child, d).s;
    var ps := s.procs[cur].slots[d];
    assert ProcOk(cfg, |s.objs|, s.procs[cur]);
    assert SlotOk(cfg, |s.objs|, d, ps);
    if ps.obj.Some? {
      BoundNamed(cfg, s, cur, d);
    }
    forall g | 0 <= g < |s'.objs|
      ensures ObjectOk(cfg, s'.objs[g]) && s'.objs[g].refCount == Refs(s'.procs, g)
    {
      RefsRebind(s.procs, child, s'.procs[child], d, ps, g);
      assert ObjectOk(cfg, s.objs[g]);
    }
    forall q | 0 <= q < |s'.procs|
      ensures ProcOk(cfg, |s'.objs|, s'.procs[q])
    {
      assert ProcOk(cfg, |s.objs|, s.procs[q]);
      if q == child {
        forall e | 0 <= e < NSLOTS
          ensures SlotOk(cfg, |s'.objs|, e, s'.procs[q].slots[e])
        {
          assert SlotOk(cfg, |s.objs|, e, s.procs[q].slots[e]);
        }
      }
    }
  }

  /**
   * Fork's slot loop from slot d on, for a live child whose slots from d
   * on are unbound, keeps the kernel consistent, changes no other entry
   * and leaves the child's slots from d on equal to the parent's.
   */
  lemma {:induction false} ForkSlotsKeep(cfg: Config, s: Sys, cur: nat, child: nat, d: nat)
    requires ForkReady(cfg, s, cur, child) && d <= NSLOTS && Consistent(cfg, s)
    requires s.procs[child].state != UNUSED
    requires forall e :: d <= e < NSLOTS ==> s.procs[child].slots[e] == Unbound
    requires ForkSlotsFrom(cfg, s, cur, child, d).Step?
    ensures var s' := ForkSlotsFrom(cfg, s, cur, child, d).s;
      |s'.procs| == |s.procs| && Consistent(cfg, s') && s'.procs == s.procs[child := s'.procs[child]] &&
      forall e :: 0 <= e < NSLOTS ==> s'.procs[child].slots[e] == if e < d then s.procs[child].slots[e] else s.procs[cur].slots[e]
    decreases NSLOTS - d
  {
    if d < NSLOTS {
      ForkSlotKeeps(cfg, s, cur, child, d);
      var s1 := ForkSlot(cfg, s, cur, child, d).s;
      ForkSlotsKeep(cfg, s1, cur, child, d + 1);
    }
  }

  /** Fork's slot loop (kernel/proc.c:243-255), corrected as ForkSlot says. */
  function ForkSlots(cfg: Config, s: Sys, cur: nat, child: nat): Step
    requires ForkReady(cfg, s, cur, child)
  {
    ForkSlotsFrom(cfg, s, cur, child, 0)
  }

  /**
   * Fork's slot loop, for a child fresh from allocproc (live, no slot
   * bound), unless it panics: the child's 16 slots equal the parent's,
   * every object gains exactly one reference per parent slot bound to it,
   * no entry but the child changes, and the kernel stays consistent.
   */
  lemma ForkEffect(cfg: Config, s: Sys, cur: nat, child: nat)
    requires ForkReady(cfg, s, cur, child) && Consistent(cfg, s)
    requires s.procs[child].state != UNUSED && s.procs[child].slots == seq(NSLOTS, _ => Unbound)
    requires ForkSlots(cfg, s, cur, child).Step?
    ensures var s' := ForkSlots(cfg, s, cur, child).s;
      |s'.procs| == |s.procs| && Consistent(cfg, s') && s'.procs == s.procs[child := s'.procs[child]] &&
      s'.procs[child].slots == s.procs[cur].slots &&
      forall g :: 0 <= g < |s.objs| ==> s'.objs[g].refCount == s.objs[g].refCount + SlotRefs(s.procs[cur].slots, g)
  {
    ForkSlotsKeep(cfg, s, cur, child, 0);
    var s' := ForkSlots(cfg, s, cur, child).s;
    assert s'.procs[child].slots == s.procs[cur].slots;
    assert forall e :: 0 <= e < |s.procs[child].slots| ==> s.procs[child].slots[e].obj.None?;
    forall g | 0 <= g < |s.objs|
      ensures s'.objs[g].refCount == s.objs[g].refCount + SlotRefs(s.procs[cur].slots, g)
    {
      assert s'.objs[g].refCount == Refs(s'.procs, g) && s.objs[g].refCount == Refs(s.procs, g);
      RefsUpdate(s.procs, child, s'.procs[child], g);
      SlotRefsNone(s.procs[child].slots, g);
    }
  }

  /**
   * shm_map of a bound slot that says unmapped (va 0) panics with "remap"
   * when the first page of its window is mapped already and its object
   * has a page.
   */
  lemma MapMappedWindow(cfg: Config, s: Sys, cur: nat, d: nat, flags: bv32)
    requires cfg.Ok() && Callable(s, cur) && Shaped(s.objs) && d < cfg.localSlots
    requires s.procs[cur].slots[d].obj.Some? && s.procs[cur].slots[d].va == 0
    requires s.objs[s.procs[cur].slots[d].obj.value].allocatedPages >= 0
    requires Mapping(s.procs[cur].pgdir, BasePage(cfg, d)).Some?
    ensures Map(cfg, s, cur, d, flags).Panic?
  {
    var o := s.objs[s.procs[cur].slots[d].obj.value];
    MapStepSummary(s.procs[cur].pgdir, s.phys.free, BasePage(cfg, d), o.memory[0], ShmPerm(flags));
  }

  /** A first page that kalloc can give a table for is mapped by copy_shm_vm_1 on a free page. */
  lemma CopyShmMapsFirst(pd: PageDir, free: FreeList, frames: seq<bv32>, n: nat, perm: bv32)
    requires frames != [] && free != [] && Mapping(pd, n).None?
    ensures Mapping(CopyShmFrom(pd, free, frames, n, perm).pd, n).Some?
  {
    var m := MapStep(pd, free, n, frames[0], perm);
    MapStepSummary(pd, free, n, frames[0], perm);
    MapStepMaps(pd, free, n, frames[0], perm);
    CopyShmOutside(m.pd, m.free, frames[1..], n + 1, perm, n);
  }

  /**
   * As written, fork maps an object's pages into the child even for a
   * slot the parent has not mapped: the child's slot says unmapped (va 0)
   * while the first page of its window is mapped, so the child's own
   * shm_map of that slot panics with "remap".
   */
  lemma ForkAsWrittenRemaps(cfg: Config, s: Sys, cur: nat, child: nat, d: nat, flags: bv32)
    requires ForkReady(cfg, s, cur, child) && d < cfg.localSlots
    requires s.procs[cur].slots[d].obj.Some? && s.procs[cur].slots[d].va == 0
    requires s.objs[s.procs[cur].slots[d].obj.value].name != "" && s.objs[s.procs[cur].slots[d].obj.value].allocatedPages >= 0
    requires s.phys.free != [] && WindowFree(s.procs[child].pgdir, BasePage(cfg, d), BasePage(cfg, d) + s.objs[s.procs[cur].slots[d].obj.value].allocatedPages)
    ensures ForkSlotAsWritten(cfg, s, cur, child, d).Step?
    ensures var s' := ForkSlotAsWritten(cfg, s, cur, child, d).s;
      Callable(s', child) && Shaped(s'.objs) &&
      s'.procs[child].slots[d].va == 0 && Mapping(s'.procs[child].pgdir, BasePage(cfg, d)).Some? &&
      Map(cfg, s', child, d, flags).Panic?
  {
    var ps := s.procs[cur].slots[d];
    var frames := SlotFrames(s, cur, d);
    var pd := s.procs[child].pgdir;
    var base := BasePage(cfg, d);
    CopyShmPanics(pd, s.phys.free, frames, base, ShmPerm(ps.flags));
    CopyShmMapsFirst(pd, s.phys.free, frames, base, ShmPerm(ps.flags));
    var s' := ForkSlotAsWritten(cfg, s, cur, child, d).s;
    MapMappedWindow(cfg, s', child, d, flags);
  }

  /**
   * Corrected, a slot the parent has not mapped leaves the child's
   * directory and the free list as they were, so the child's own shm_map
   * of the slot, with its window free, does not panic.
   */
  lemma ForkSlotThenMap(cfg: Config, s: Sys, cur: nat, child: nat, d: nat, flags: bv32)
    requires ForkReady(cfg, s, cur, child) && d < cfg.localSlots
    requires s.procs[cur].slots[d].obj.Some? && s.procs[cur].slots[d].va == 0
    requires WindowFree(s.procs[child].pgdir, BasePage(cfg, d), BasePage(cfg, d) + s.objs[s.procs[cur].slots[d].obj.value].allocatedPages)
    ensures ForkSlot(cfg, s, cur, child, d).Step?
    ensures var s' := ForkSlot(cfg, s, cur, child, d).s;
      Callable(s', child) && Shaped(s'.objs) &&
      s'.procs[child].pgdir == s.procs[child].pgdir && s'.phys == s.phys &&
      Map(cfg, s', child, d, flags).Step?
  {
    var s' := ForkSlot(cfg, s, cur, child, d).s;
    MapNoPanic(cfg, s', child, d, flags);
  }

  /**
   * One turn of fork's slot loop (kernel/proc.c:244-254) for slot d,
   * proved against ForkSlot: panicked stands for mappages' panic("remap").
   */
  method ForkSlotIn(k: Kernel, cur: nat, child: nat, d: nat) returns (panicked: bool)
    requires ForkReady(k.cfg, k.State(), cur, child) && d < NSLOTS
    modifies k, k.objs, k.procs
    ensures panicked <==> ForkSlot(k.cfg, old(k.State()), cur, child, d).Panic?
    ensures !panicked ==> ForkSlot(k.cfg, old(k.State()), cur, child, d) == Step(0, k.State())
  {
    ghost var s := k.State();
    var slot := k.procs[cur].slots[d];
    var c := k.procs[child].(slots := k.procs[child].slots[d := slot]);
    var m := ShmCopied(false, c.pgdir, k.phys.free);
    assert m == NoCopy(s, child);
    var shared := slot.obj.Some? && k.objs[slot.obj.value].name != "";
    assert shared == Shared(s, cur, d);
    if shared && slot.va != 0 {
      m := CopyShmVm1(k.cfg, k.objs[slot.obj.value], c.pgdir, k.phys.free, d, slot.flags);
      if m.panicked {
        return true;
      }
    }
    assert ForkSlot(k.cfg, s, cur, child, d) == ForkedSlot(s, cur, child, d, m);
    if shared {
      var g := slot.obj.value;
      k.objs[g] := Counted(k.objs[g]);
    }
    k.procs[child] := c.(pgdir := m.pd);
    k.phys := k.phys.(free := m.free);
    ghost var r := ForkedSlot(s, cur, child, d, m).s;
    assert k.objs[..] == r.objs;
    assert k.procs[..] == r.procs;
    return false;
  }

  /** Fork's slot loop (kernel/proc.c:243-255), proved against ForkSlots. */
  method ForkShmSlots(k: Kernel, cur: nat, child: nat) returns (panicked: bool)
    requires ForkReady(k.cfg, k.State(), cur, child)
    modifies k, k.objs, k.procs
    ensures panicked <==> ForkSlots(k.cfg, old(k.State()), cur, child).Panic?
    ensures !panicked ==> ForkSlots(k.cfg, old(k.State()), cur, child) == Step(0, k.State())
  {
    for d := 0 to NSLOTS
      invariant ForkReady(k.cfg, k.State(), cur, child)
      invariant ForkSlotsFrom(k.cfg, k.State(), cur, child, d) == ForkSlots(k.cfg, old(k.State()), cur, child)
    {
      panicked := ForkSlotIn(k, cur, child, d);
      if panicked {
        return;
      }
    }
    return false;
  }

  // ---------------------------------------------------------------------
  // wait: reaping a zombie

  /** What the release of zombie z's slots needs: z's 16 slots name registry entries, which are shaped. */
  predicate ReapReady(cfg: Config, s: Sys, z: nat)
  {
    cfg.Ok() && z < |s.procs| && SlotsIn(s.procs[z].slots, |s.objs|) && Shaped(s.objs)
  }

  /**
   * The release of slot d of zombie z by wait (kernel/proc.c:363-381),
   * corrected: a slot bound to a named object is cleared (flags, address
   * and object); the window [base, base + size) of the object is unmapped
   * in z's directory by unmap1, whether or not the slot was mapped; the
   * object loses a reference and, at none left, its pages
   * 0..allocated_pages are freed (clean_shm_mem, the same loop as
   * clean_shm_mem1) and it is free again, name included. A slot bound to
   * no object, or to a nameless one, is left alone.
   */
  function ReapSlot(cfg: Config, s: Sys, z: nat, d: nat): (r: Sys)
    requires ReapReady(cfg, s, z) && d < NSLOTS
    ensures |r.procs| == |s.procs| && r.procs == s.procs[z := r.procs[z]] && ReapReady(cfg, r, z)
    ensures r.procs[z] == s.procs[z].(pgdir := r.procs[z].pgdir, slots := r.procs[z].slots)
    ensures r.procs[z].slots == s.procs[z].slots[d := r.procs[z].slots[d]]
    ensures r.procs[z].slots[d] == Unbound || r == s
  {
    var p := s.procs[z];
    var slot := p.slots[d];
    if slot.obj.None? || s.objs[slot.obj.value].name == "" then s
    else
      var g := slot.obj.value;
      var o := s.objs[g];
      var pd := UnmapFrom(p.pgdir, BasePage(cfg, d), BasePage(cfg, d) + Pages(o.size));
      var s1 := s.(procs := s.procs[z := p.(pgdir := pd, slots := p.slots[d := Unbound])]);
      if o.refCount - 1 == 0 then
        s1.(objs := s.objs[g := Emptied(o)],
            phys := s.phys.(free := FreeFrames(s.phys.free, o.memory[..o.allocatedPages + 1])))
      else s1.(objs := s.objs[g := Released(o)])
  }

  /**
   * The release of slot d of zombie z by wait, as written: the memset of
   * kernel/proc.c:378 clears the object's name whether or not references
   * are left.
   */
  function ReapSlotAsWritten(cfg: Config, s: Sys, z: nat, d: nat): Sys
    requires ReapReady(cfg, s, z) && d < NSLOTS
  {
    var r := ReapSlot(cfg, s, z, d);
    var slot := s.procs[z].slots[d];
    if slot.obj.None? || s.objs[slot.obj.value].name == "" then r
    else r.(objs := r.objs[slot.obj.value := r.objs[slot.obj.value].(name := "")])
  }

  /**
   * As written, reaping a zombie whose slot shares an object with another
   * holder leaves the object referenced but nameless: the kernel is no
   * longer consistent, and the next shm_open of any new name can take
   * the entry while it is still in use.
   */
  lemma ReapAsWrittenBreaks(cfg: Config, s: Sys, z: nat, d: nat)
    requires ReapReady(cfg, s, z) && d < NSLOTS && Consistent(cfg, s)
    requires s.procs[z].slots[d].obj.Some? && s.objs[s.procs[z].slots[d].obj.value].refCount >= 2
    ensures var g := s.procs[z].slots[d].obj.value;
      var r := ReapSlotAsWritten(cfg, s, z, d);
      r.objs[g].refCount == s.objs[g].refCount - 1 && r.objs[g].name == "" && !Consistent(cfg, r)
  {
    var g := s.procs[z].slots[d].obj.value;
    BoundNamed(cfg, s, z, d);
    var r := ReapSlotAsWritten(cfg, s, z, d);
    assert !ObjectOk(cfg, r.objs[g]);
  }

  /**
   * Corrected, releasing a slot keeps the kernel consistent, and the
   * slot, if bound, is unbound afterwards.
   */
  lemma ReapSlotKeeps(cfg: Config, s: Sys, z: nat, d: nat)
    requires ReapReady(cfg, s, z) && d < NSLOTS && Consistent(cfg, s)
    ensures Consistent(cfg, ReapSlot(cfg, s, z, d)) && ReapSlot(cfg, s, z, d).procs[z].slots[d] == Unbound
  {
    var slot := s.procs[z].slots[d];
    assert ProcOk(cfg, |s.objs|, s.procs[z]);
    assert SlotOk(cfg, |s.objs|, d, slot);
    if slot.obj.Some? {
      BoundNamed(cfg, s, z, d);
      var o0 := s.objs[slot.obj.value];
      ReapSlotBound(cfg, s, z, d, UnmapFrom(s.procs[z].pgdir, BasePage(cfg, d), BasePage(cfg, d) + Pages(o0.size)),
        if o0.refCount - 1 == 0 then Emptied(o0) else Released(o0),
        if o0.refCount - 1 == 0 then s.phys.(free := FreeFrames(s.phys.free, o0.memory[..o0.allocatedPages + 1])) else s.phys);
      var s' := ReapSlot(cfg, s, z, d);
      forall g | 0 <= g < |s'.objs|
        ensures ObjectOk(cfg, s'.objs[g]) && s'.objs[g].refCount == Refs(s'.procs, g)
      {
        RefsRebind(s.procs, z, s'.procs[z], d, Unbound, g);
        assert ObjectOk(cfg, s.objs[g]);
      }
      forall q | 0 <= q < |s'.procs|
        ensures ProcOk(cfg, |s'.objs|, s'.procs[q])
      {
        assert ProcOk(cfg, |s.objs|, s.procs[q]);
        if q == z {
          forall e | 0 <= e < NSLOTS
            ensures SlotOk(cfg, |s'.objs|, e, s'.procs[q].slots[e])
          {
            assert SlotOk(cfg, |s.objs|, e, s.procs[q].slots[e]);
          }
        }
      }
    }
  }

  /**
   * Releasing a bound slot unmaps exactly the object's window
   * [base, base + size) in the zombie's directory (unmap1, so that freevm
   * does not free the object's pages) and leaves every other page's
   * translation as it was.
   */
  lemma ReapSlotUnmaps(cfg: Config, s: Sys, z: nat, d: nat, m: nat)
    requires ReapReady(cfg, s, z) && d < NSLOTS && s.procs[z].slots[d].obj.Some?
    requires s.objs[s.procs[z].slots[d].obj.value].name != ""
    ensures var base := BasePage(cfg, d);
      var size := s.objs[s.procs[z].slots[d].obj.value].size;
      Mapping(ReapSlot(cfg, s, z, d).procs[z].pgdir, m) ==
        if base <= m < base + Pages(size) then None else Mapping(s.procs[z].pgdir, m)
  {
    var size := s.objs[s.procs[z].slots[d].obj.value].size;
    UnmapMapping(s.procs[z].pgdir, BasePage(cfg, d), BasePage(cfg, d) + Pages(size), m);
  }

  /** A process's 16 slots are all unbound. */
  predicate AllUnbound(slots: seq<LocalSlot>)
  {
    |slots| == NSLOTS && forall d :: 0 <= d < NSLOTS ==> slots[d] == Unbound
  }

  /** wait's loop over the zombie's slots (kernel/proc.c:363-382) from slot d on. */
  function ReapSlotsFrom(cfg: Config, s: Sys, z: nat, d: nat): (r: Sys)
    requires ReapReady(cfg, s, z) && d <= NSLOTS
    ensures |r.procs| == |s.procs| && r.procs == s.procs[z := r.procs[z]] && ReapReady(cfg, r, z)
    ensures r.procs[z] == s.procs[z].(pgdir := r.procs[z].pgdir, slots := r.procs[z].slots)
    decreases NSLOTS - d
  {
    if d == NSLOTS then s else ReapSlotsFrom(cfg, ReapSlot(cfg, s, z, d), z, d + 1)
  }

  /**
   * The loop over the zombie's slots from d on keeps the kernel
   * consistent, unbinds every slot from d on and leaves the others.
   */
  lemma {:induction false} ReapSlotsKeep(cfg: Config, s: Sys, z: nat, d: nat)
    requires ReapReady(cfg, s, z) && d <= NSLOTS && Consistent(cfg, s)
    ensures var r := ReapSlotsFrom(cfg, s, z, d);
      Consistent(cfg, r) &&
      forall e :: 0 <= e < NSLOTS ==> r.procs[z].slots[e] == if e < d then s.procs[z].slots[e] else Unbound
    decreases NSLOTS - d
  {
    if d < NSLOTS {
      ReapSlotKeeps(cfg, s, z, d);
      ReapSlotsKeep(cfg, ReapSlot(cfg, s, z, d), z, d + 1);
    }
  }

  /**
   * What wait does to zombie z once its slots are released
   * (kernel/proc.c:383-391): its kernel stack is freed, freevm frees its
   * user pages and page tables (a panic when freevm does), and the entry
   * is cleared and UNUSED, its directory left as it was; the result is
   * z's pid.
   */
  function Release(s: Sys, z: nat): Step
    requires z < |s.procs|
  {
    var p := s.procs[z];
    match FreeVmSpec(p.pgdir, Kfree(s.phys.free, p.kstack))
    case None => Panic("kfree")
    case Some(free) =>
      Step(p.pid, s.(procs := s.procs[z := p.(kstack := 0, pid := 0, parent := None, name := "", killed := false, state := UNUSED)],
                     phys := s.phys.(free := free)))
  }

  /** wait's release of zombie z (kernel/proc.c:362-391): its slots, then the rest of it. */
  function Reap(cfg: Config, s: Sys, z: nat): Step
    requires ReapReady(cfg, s, z)
  {
    Release(ReapSlotsFrom(cfg, s, z, 0), z)
  }

  /**
   * Reaping z in a consistent kernel, unless freevm panics: z's pid is
   * returned, z is UNUSED with no bound slot, no other entry changes,
   * every object loses exactly one reference per slot z had bound to it,
   * and the kernel stays consistent (so an object left with none is free
   * again).
   */
  lemma ReapEffect(cfg: Config, s: Sys, z: nat)
    requires ReapReady(cfg, s, z) && Consistent(cfg, s) && Reap(cfg, s, z).Step?
    ensures var s' := Reap(cfg, s, z).s;
      Reap(cfg, s, z).r == s.procs[z].pid && |s'.procs| == |s.procs| &&
      s'.procs == s.procs[z := s'.procs[z]] && s'.procs[z].state == UNUSED &&
      AllUnbound(s'.procs[z].slots) && Consistent(cfg, s') &&
      forall g :: 0 <= g < |s.objs| ==> s'.objs[g].refCount == s.objs[g].refCount - SlotRefs(s.procs[z].slots, g)
  {
    ReapSlotsKeep(cfg, s, z, 0);
    ReleaseEffect(cfg, s, ReapSlotsFrom(cfg, s, z, 0), z);
  }

  /**
   * Clearing z's entry after all its slots are released: one reference
   * less per bound slot for each object, and the kernel stays consistent.
   */
  lemma ReleaseEffect(cfg: Config, s: Sys, s1: Sys, z: nat)
    requires Consistent(cfg, s) && Consistent(cfg, s1) && z < |s.procs| && |s1.objs| == |s.objs|
    requires |s1.procs| == |s.procs| && s1.procs == s.procs[z := s1.procs[z]] && s1.procs[z].pid == s.procs[z].pid
    requires AllUnbound(s1.procs[z].slots) && Release(s1, z).Step?
    ensures var s' := Release(s1, z).s;
      Release(s1, z).r == s.procs[z].pid && |s'.procs| == |s.procs| &&
      s'.procs == s.procs[z := s'.procs[z]] && s'.procs[z].state == UNUSED &&
      AllUnbound(s'.procs[z].slots) && Consistent(cfg, s') &&
      forall g :: 0 <= g < |s.objs| ==> s'.objs[g].refCount == s.objs[g].refCount - SlotRefs(s.procs[z].slots, g)
  {
    ReapSlotsRefs(cfg, s, s1, z);
    var s' := Release(s1, z).s;
    ClearEntryKeeps(cfg, s1.(phys := s'.phys), z, s'.procs[z]);
  }

  /** Releasing all of z's slots takes one reference per bound slot from each object. */
  lemma ReapSlotsRefs(cfg: Config, s: Sys, s1: Sys, z: nat)
    requires Consistent(cfg, s) && Consistent(cfg, s1) && z < |s.procs| && |s1.objs| == |s.objs|
    requires |s1.procs| == |s.procs| && s1.procs == s.procs[z := s1.procs[z]]
    requires AllUnbound(s1.procs[z].slots)
    ensures forall g :: 0 <= g < |s.objs| ==> s1.objs[g].refCount == s.objs[g].refCount - SlotRefs(s.procs[z].slots, g)
  {
    forall g | 0 <= g < |s.objs|
      ensures s1.objs[g].refCount == s.objs[g].refCount - SlotRefs(s.procs[z].slots, g)
    {
      assert s1.objs[g].refCount == Refs(s1.procs, g) && s.objs[g].refCount == Refs(s.procs, g);
      RefsUpdate(s.procs, z, s1.procs[z], g);
      SlotRefsNone(s1.procs[z].slots, g);
    }
  }

  /** Replacing an entry whose slots are all unbound by another with the same slots keeps the kernel consistent. */
  lemma ClearEntryKeeps(cfg: Config, s: Sys, z: nat, q: Proc)
    requires Consistent(cfg, s) && z < |s.procs| && AllUnbound(s.procs[z].slots) && q.slots == s.procs[z].slots
    ensures Consistent(cfg, s.(procs := s.procs[z := q]))
  {
    var procs := s.procs[z := q];
    forall g | 0 <= g < |s.objs|
      ensures s.objs[g].refCount == Refs(procs, g)
    {
      RefsUpdate(s.procs, z, q, g);
    }
    forall p | 0 <= p < |procs|
      ensures ProcOk(cfg, |s.objs|, procs[p])
    {
      assert ProcOk(cfg, |s.objs|, s.procs[p]);
    }
  }

  // ---------------------------------------------------------------------
  // wait: the scan

  /** The first entry from i on that is a ZOMBIE child of cur, or -1. */
  function FirstZombieChild(procs: seq<Proc>, cur: nat, i: nat): (r: int)
    ensures r == -1 || (i <= r < |procs| && procs[r].parent == Some(cur) && procs[r].state == ZOMBIE)
    decreases |procs| - i
  {
    if i >= |procs| then -1
    else if procs[i].parent == Some(cur) && procs[i].state == ZOMBIE then i
    else FirstZombieChild(procs, cur, i + 1)
  }

  /** No ZOMBIE child of cur lies between i and the one FirstZombieChild finds (or the end). */
  lemma {:induction false} FirstZombieChildFirst(procs: seq<Proc>, cur: nat, i: nat)
    ensures var r := FirstZombieChild(procs, cur, i);
      forall j :: i <= j < |procs| && (r == -1 || j < r) ==> !(procs[j].parent == Some(cur) && procs[j].state == ZOMBIE)
    decreases |procs| - i
  {
    if i < |procs| && !(procs[i].parent == Some(cur) && procs[i].state == ZOMBIE) {
      FirstZombieChildFirst(procs, cur, i + 1);
    }
  }

  /** Some entry has cur as its parent. */
  predicate HasChild(procs: seq<Proc>, cur: nat)
  {
    exists j :: 0 <= j < |procs| && procs[j].parent == Some(cur)
  }

  /** What wait may reap: every entry's slots name registry entries, which are shaped. */
  predicate WaitReady(cfg: Config, s: Sys)
  {
    cfg.Ok() && Shaped(s.objs) && forall p :: 0 <= p < |s.procs| ==> SlotsIn(s.procs[p].slots, |s.objs|)
  }

  /** A consistent kernel is ready for wait. */
  lemma ConsistentWaitReady(cfg: Config, s: Sys)
    requires cfg.Ok() && Consistent(cfg, s)
    ensures WaitReady(cfg, s)
  {
    forall p | 0 <= p < |s.procs|
      ensures SlotsIn(s.procs[p].slots, |s.objs|)
    {
      ConsistentCallable(cfg, s, p);
    }
    ConsistentCallable(cfg, s, s.initproc);
  }

  /** The outcome of one pass of wait. */
  datatype Waited = Returned(r: int, s: Sys) | Sleeps | WaitPanic(why: string)

  /**
   * One pass of wait by process cur (kernel/proc.c:355-396): the first
   * ZOMBIE child is reaped and its pid returned; with none, -1 is
   * returned when cur has no child at all or has been killed, and
   * otherwise cur goes to sleep until a child exits.
   */
  function WaitFor(cfg: Config, s: Sys, cur: nat): Waited
    requires WaitReady(cfg, s) && cur < |s.procs|
  {
    var z := FirstZombieChild(s.procs, cur, 0);
    if z >= 0 then
      match Reap(cfg, s, z)
      case Panic(why) => WaitPanic(why)
      case Step(r, s') => Returned(r, s')
    else if !HasChild(s.procs, cur) || s.procs[cur].killed then Returned(-1, s)
    else Sleeps
  }

  /**
   * wait reaps the lowest-numbered ZOMBIE child when there is one; with
   * none it returns -1 with nothing changed exactly when cur has no child
   * or is killed, and sleeps exactly when it has a child and is not
   * killed.
   */
  lemma WaitOutcome(cfg: Config, s: Sys, cur: nat)
    requires WaitReady(cfg, s) && cur < |s.procs|
    ensures var z := FirstZombieChild(s.procs, cur, 0);
      (z == -1 <==> forall j :: 0 <= j < |s.procs| ==> !(s.procs[j].parent == Some(cur) && s.procs[j].state == ZOMBIE))
    ensures var z := FirstZombieChild(s.procs, cur, 0);
      z >= 0 ==>
        (forall j :: 0 <= j < z ==> !(s.procs[j].parent == Some(cur) && s.procs[j].state == ZOMBIE)) &&
        (WaitFor(cfg, s, cur).WaitPanic? || WaitFor(cfg, s, cur) == Returned(s.procs[z].pid, Reap(cfg, s, z).s))
    ensures var w := WaitFor(cfg, s, cur);
      FirstZombieChild(s.procs, cur, 0) == -1 ==>
        (w.Sleeps? <==> HasChild(s.procs, cur) && !s.procs[cur].killed) &&
        (!w.Sleeps? ==> w == Returned(-1, s))
  {
    FirstZombieChildFirst(s.procs, cur, 0);
  }

  /**
   * A pass of wait that reaps a child returns the child's pid, leaves it
   * UNUSED with no bound slot and the kernel consistent; one that returns
   * without reaping changes nothing.
   */
  lemma WaitKeeps(cfg: Config, s: Sys, cur: nat)
    requires cfg.Ok() && Consistent(cfg, s) && cur < |s.procs|
    ensures WaitReady(cfg, s)
    ensures WaitFor(cfg, s, cur).Returned? ==> Consistent(cfg, WaitFor(cfg, s, cur).s)
    ensures var z := FirstZombieChild(s.procs, cur, 0);
      WaitFor(cfg, s, cur).Returned? && z >= 0 ==>
        WaitFor(cfg, s, cur).r == s.procs[z].pid && WaitFor(cfg, s, cur).s.procs[z].state == UNUSED &&
        AllUnbound(WaitFor(cfg, s, cur).s.procs[z].slots)
  {
    ConsistentWaitReady(cfg, s);
    var z := FirstZombieChild(s.procs, cur, 0);
    if z >= 0 && Reap(cfg, s, z).Step? {
      ReapEffect(cfg, s, z);
    }
  }

  /**
   * unmap1 (kernel/proc.c:329-341), proved against UnmapFrom: it clears
   * the present entries of the pages from PGROUNDUP(from) up to to; pages
   * without a page table are skipped (see UnmapFromAsWritten).
   */
  method Unmap1(pd: PageDir, from: nat, to: nat) returns (r: PageDir)
    ensures r == UnmapFrom(pd, Pages(from), Pages(to))
  {
    r := pd;
    var address := Pages(from) * PGSIZE;
    ghost var n: nat := Pages(from);
    while address < to
      invariant address == n * PGSIZE && Pages(from) <= n
      invariant UnmapFrom(r, n, Pages(to)) == UnmapFrom(pd, Pages(from), Pages(to))
    {
      PagesBound(n, to);
      PagesShift(n, 0);
      var page := address / PGSIZE;
      var w := WalkPgDir(r, [], page, false);
      if w.pte.Some? && Present(Lookup(r, page).value) {
        r := SetPte(r, page, 0);
      }
      address := address + PGSIZE;
      n := n + 1;
    }
    PagesBound(n, to);
  }

  /**
   * One turn of wait's slot loop (kernel/proc.c:363-381) for slot d of
   * zombie z, proved against ReapSlot; the object's pages are freed by
   * clean_shm_mem, modelled by CleanShmMem1 (the two loops are the same).
   */
  method ReapSlotIn(k: Kernel, z: nat, d: nat)
    requires ReapReady(k.cfg, k.State(), z) && d < NSLOTS
    modifies k, k.objs, k.procs
    ensures k.State() == ReapSlot(k.cfg, old(k.State()), z, d)
  {
    ghost var s := k.State();
    var p := k.procs[z];
    var slot := p.slots[d];
    if slot.obj.Some? && k.objs[slot.obj.value].name != "" {
      var g := slot.obj.value;
      var o, pd, ph := ReleaseSlot(k.cfg, k.objs[g], p.pgdir, k.phys, d);
      ReapSlotBound(k.cfg, s, z, d, pd, o, ph);
      k.phys := ph;
      k.objs[g] := o;
      k.procs[z] := p.(pgdir := pd, slots := p.slots[d := Unbound]);
      assert k.objs[..] == s.objs[g := o];
      assert k.procs[..] == s.procs[z := p.(pgdir := pd, slots := p.slots[d := Unbound])];
    } else {
      assert ReapSlot(k.cfg, s, z, d) == s;
    }
  }

  /**
   * What wait does to the entry o of a zombie's slot d (kernel/proc.c:370-378):
   * one reference fewer, the slot's window unmapped in the zombie's
   * directory by unmap1 and, at none left, the pages freed and the entry
   * emptied. As corrected, the name is cleared with the last reference
   * only (ReapSlotAsWritten keeps the unconditional memset).
   */
  method ReleaseSlot(cfg: Config, o: ShmObject, pgdir: PageDir, ph: Phys, d: nat) returns (o': ShmObject, pd: PageDir, ph': Phys)
    requires cfg.Ok() && d < NSLOTS && |o.memory| == NMEMORY && -1 <= o.allocatedPages < NMEMORY
    ensures pd == UnmapFrom(pgdir, BasePage(cfg, d), BasePage(cfg, d) + Pages(o.size))
    ensures o' == if o.refCount - 1 == 0 then Emptied(o) else Released(o)
    ensures ph' == if o.refCount - 1 == 0 then ph.(free := FreeFrames(ph.free, o.memory[..o.allocatedPages + 1])) else ph
  {
    o' := o.(refCount := o.refCount - 1);
    var oldsz := ShmBase(cfg, d);
    var newsz := oldsz + o'.size;
    ShmBasePage(cfg, d);
    PagesShift(BasePage(cfg, d), o'.size);
    PagesShift(BasePage(cfg, d), 0);
    assert Pages(oldsz) == BasePage(cfg, d) && Pages(newsz) == BasePage(cfg, d) + Pages(o.size);
    pd := Unmap1(pgdir, oldsz, newsz);
    ph' := ph;
    if o'.refCount == 0 {
      o', ph' := CleanShmMem1(o', ph);
      o' := o'.(size := 0, name := "");
    }
  }

  /**
   * ReapSlot on a slot bound to a named entry, as one state: the given
   * directory, entry and memory are the ones it computes.
   */
  lemma ReapSlotBound(cfg: Config, s: Sys, z: nat, d: nat, pd: PageDir, o: ShmObject, ph: Phys)
    requires ReapReady(cfg, s, z) && d < NSLOTS
    requires s.procs[z].slots[d].obj.Some? && s.objs[s.procs[z].slots[d].obj.value].name != ""
    requires var g := s.procs[z].slots[d].obj.value;
      var o0 := s.objs[g];
      pd == UnmapFrom(s.procs[z].pgdir, BasePage(cfg, d), BasePage(cfg, d) + Pages(o0.size)) &&
      o == (if o0.refCount - 1 == 0 then Emptied(o0) else Released(o0)) &&
      ph == (if o0.refCount - 1 == 0 then s.phys.(free := FreeFrames(s.phys.free, o0.memory[..o0.allocatedPages + 1])) else s.phys)
    ensures var p := s.procs[z];
      ReapSlot(cfg, s, z, d) ==
        Sys(s.objs[p.slots[d].obj.value := o], s.procs[z := p.(pgdir := pd, slots := p.slots[d := Unbound])], ph, s.nextpid, s.initproc)
  {
  }

  /** wait's release of zombie z (kernel/proc.c:363-391), proved against Reap. */
  method ReapIn(k: Kernel, z: nat) returns (pid: int, panicked: bool)
    requires ReapReady(k.cfg, k.State(), z)
    modifies k, k.objs, k.procs
    ensures panicked <==> Reap(k.cfg, old(k.State()), z).Panic?
    ensures !panicked ==> Reap(k.cfg, old(k.State()), z) == Step(pid, k.State())
  {
    for d := 0 to NSLOTS
      invariant ReapReady(k.cfg, k.State(), z)
      invariant ReapSlotsFrom(k.cfg, k.State(), z, d) == ReapSlotsFrom(k.cfg, old(k.State()), z, 0)
    {
      ReapSlotIn(k, z, d);
    }
    var p := k.procs[z];
    pid := p.pid;
    var free := Kfree(k.phys.free, p.kstack);
    var res := FreeVm(p.pgdir, free);
    if res.None? {
      return pid, true;
    }
    k.procs[z] := p.(kstack := 0, pid := 0, parent := None, name := "", killed := false, state := UNUSED);
    k.phys := k.phys.(free := res.value);
    panicked := false;
  }

  /**
   * One pass of wait by process cur (kernel/proc.c:355-396), proved
   * against WaitFor: sleeps stands for the call of sleep, after which the
   * source scans again, and panicked for freevm's panic.
   */
  method Wait(k: Kernel, cur: nat) returns (r: int, sleeps: bool, panicked: bool)
    requires WaitReady(k.cfg, k.State()) && cur < k.procs.Length
    modifies k, k.objs, k.procs
    ensures sleeps <==> WaitFor(k.cfg, old(k.State()), cur).Sleeps?
    ensures panicked <==> WaitFor(k.cfg, old(k.State()), cur).WaitPanic?
    ensures sleeps ==> k.State() == old(k.State())
    ensures !sleeps && !panicked ==> WaitFor(k.cfg, old(k.State()), cur) == Returned(r, k.State())
  {
    var havekids := false;
    for i := 0 to k.procs.Length
      invariant k.State() == old(k.State())
      invariant FirstZombieChild(k.procs[..], cur, i) == FirstZombieChild(k.procs[..], cur, 0)
      invariant havekids <==> exists j :: 0 <= j < i && k.procs[j].parent == Some(cur)
    {
      if k.procs[i].parent != Some(cur) {
        continue;
      }
      havekids := true;
      if k.procs[i].state == ZOMBIE {
        r, panicked := ReapIn(k, i);
        return r, false, panicked;
      }
    }
    if !havekids || k.procs[cur].killed {
      return -1, false, false;
    }
    return 0, true, false;
  }
}
