/**
  The process-management system calls: memory mapping and unmapping of the
  running task's address space, reaping of children, priority, fork, exec
  and spawn, and the two telemetry calls that write a structure into user
  memory. The running task, the ready heap and the memory set are passed
  in; the trap handler that dispatches here and writes the return value
  back is not part of this model.
 */
module ProcessSyscalls {
  import opened Wrappers
  import opened Tcb
  import opened Manager
  import opened Dispatch
  import opened MemorySets
  import opened UserCopy

  // ---------------------------------------------------------------------
  // Machine words
  // ---------------------------------------------------------------------

  const ISIZE_MIN: int := -0x8000_0000_0000_0000
  const ISIZE_MAX: int := 0x7fff_ffff_ffff_ffff
  const USIZE_MODULUS: nat := 0x1_0000_0000_0000_0000

  predicate IsIsize(x: int)
  {
    ISIZE_MIN <= x <= ISIZE_MAX
  }

  /** `x as usize` for an `isize`: the same 64 bits read as unsigned. */
  function AsUsize(x: int): (u: nat)
    requires IsIsize(x)
    ensures u < USIZE_MODULUS
    ensures u % USIZE_MODULUS == x % USIZE_MODULUS
    ensures 0 <= x ==> u == x
  {
    if x < 0 then x + USIZE_MODULUS else x
  }

  // ---------------------------------------------------------------------
  // sys_mmap / sys_munmap
  // ---------------------------------------------------------------------

  /** The two guards on `port`: no bit above bit 2, and at least one of
      read, write and execute. Together they accept exactly 1..7. */
  function PortAccepted(port: bv64): (ok: bool)
    ensures ok <==> 1 <= port <= 7
  {
    port & !7 == 0 && port & 7 != 0
  }

  /** `MapPermission::from_bits_truncate((port << 1) as u8) | U`: port bit 0
      becomes R, bit 1 becomes W, bit 2 becomes X, and U is always set;
      bits that name no permission are dropped. */
  function Permission(port: bv64): (perm: bv8)
    ensures (perm & PERM_R != 0) <==> (port & 1 != 0)
    ensures (perm & PERM_W != 0) <==> (port & 2 != 0)
    ensures (perm & PERM_X != 0) <==> (port & 4 != 0)
    ensures perm & PERM_U != 0
    ensures perm & !PERM_ALL == 0
  {
    (((port << 1) & 0xff) as bv8 & PERM_ALL) | PERM_U
  }

  /**
    `sys_mmap`: the guards run in the order of the source (port, then
    alignment, then a scan of the page range for an entry with `valid` set);
    the first that fails returns -1 and the memory set is untouched. A page
    with no entry counts as free. Otherwise exactly one area covering
    `[Floor(start), Ceil(start + len))` is inserted with `Permission(port)`
    and the call returns 0.
   */
  method SysMmap(memorySet: MemorySet, start: nat, len: nat, port: bv64) returns (r: int)
    requires FitsInAddressSpace(start, len)
    modifies memorySet
    ensures r == 0 || r == -1
    ensures r == -1 <==>
      || !PortAccepted(port)
      || !IsPageAligned(start)
      || SomePageValid(old(memorySet.pageTable), Floor(start), Ceil(start + len))
    ensures r == -1 ==>
      memorySet.pageTable == old(memorySet.pageTable) && memorySet.areas == old(memorySet.areas)
    ensures r == 0 ==>
      && memorySet.areas == old(memorySet.areas) + [MapArea(Floor(start), Ceil(start + len), Permission(port))]
      && memorySet.pageTable == MapRange(old(memorySet.pageTable), Floor(start), Ceil(start + len), Permission(port))
    ensures old(WellFormed(memorySet.pageTable, memorySet.areas)) ==> WellFormed(memorySet.pageTable, memorySet.areas)
  {
    if port & !7 != 0 {
      return -1;
    }
    if port & 7 == 0 {
      return -1;
    }
    if start % PAGE_SIZE != 0 {
      return -1;
    }
    var startVpn := Floor(start);
    var endVpn := Ceil(start + len);
    var vpn := startVpn;
    while vpn < endVpn
      invariant startVpn <= vpn
      invariant forall v :: startVpn <= v < vpn ==> !PageValid(memorySet.pageTable, v)
    {
      var pte := memorySet.Translate(vpn);
      if pte.Some? && pte.value.valid {
        assert PageValid(memorySet.pageTable, vpn);
        return -1;
      }
      vpn := vpn + 1;
    }
    if WellFormed(memorySet.pageTable, memorySet.areas) {
      InsertFreshAreaKeepsWellFormed(memorySet.pageTable, memorySet.areas, MapArea(startVpn, endVpn, Permission(port)));
    }
    memorySet.InsertFramedArea(startVpn, endVpn, Permission(port));
    r := 0;
  }

  /** `sys_munmap`: a misaligned start fails with -1 and changes nothing;
      otherwise the call is `unmap_the_area` on the same range. */
  method SysMunmap(memorySet: MemorySet, start: nat, len: nat,
                   unmapAtOnce: (PageTable, seq<MapArea>, nat, nat) -> (PageTable, seq<MapArea>, int))
    returns (r: int)
    requires FitsInAddressSpace(start, len)
    modifies memorySet
    ensures !IsPageAligned(start) || !AllPagesValid(old(memorySet.pageTable), Floor(start), Ceil(start + len)) ==>
      r == -1 && memorySet.pageTable == old(memorySet.pageTable) && memorySet.areas == old(memorySet.areas)
    ensures IsPageAligned(start) && AllPagesValid(old(memorySet.pageTable), Floor(start), Ceil(start + len)) ==>
      (memorySet.pageTable, memorySet.areas, r)
        == unmapAtOnce(old(memorySet.pageTable), old(memorySet.areas), Floor(start), Ceil(start + len))
  {
    if start % PAGE_SIZE != 0 {
      return -1;
    }
    r := UnmapTheArea(memorySet, start, len, unmapAtOnce);
  }

  /** The pages a successful `mmap` maps are all validly mapped afterwards,
      which is what `munmap` demands of its range. */
  lemma MunmapAcceptsWhatMmapMapped(pt: PageTable, start: nat, len: nat, port: bv64)
    ensures AllPagesValid(MapRange(pt, Floor(start), Ceil(start + len), Permission(port)), Floor(start), Ceil(start + len))
  {
  }

  /**
    `mmap` followed by `munmap` of the same range: when the `mmap` succeeds,
    the `munmap` passes its alignment and page checks and hands exactly the
    area just mapped to `unmap_at_once`; when the `mmap` fails, the
    `munmap` sees the memory set as it was.
   */
  method MmapThenMunmap(memorySet: MemorySet, start: nat, len: nat, port: bv64,
                        unmapAtOnce: (PageTable, seq<MapArea>, nat, nat) -> (PageTable, seq<MapArea>, int))
    returns (mapped: int, unmapped: int)
    requires FitsInAddressSpace(start, len)
    modifies memorySet
    ensures mapped == 0 ==>
      (memorySet.pageTable, memorySet.areas, unmapped)
        == unmapAtOnce(MapRange(old(memorySet.pageTable), Floor(start), Ceil(start + len), Permission(port)),
                       old(memorySet.areas) + [MapArea(Floor(start), Ceil(start + len), Permission(port))],
                       Floor(start), Ceil(start + len))
    ensures mapped == -1 && IsPageAligned(start) && AllPagesValid(old(memorySet.pageTable), Floor(start), Ceil(start + len)) ==>
      (memorySet.pageTable, memorySet.areas, unmapped)
        == unmapAtOnce(old(memorySet.pageTable), old(memorySet.areas), Floor(start), Ceil(start + len))
    ensures mapped == -1 && !(IsPageAligned(start) && AllPagesValid(old(memorySet.pageTable), Floor(start), Ceil(start + len))) ==>
      unmapped == -1 && memorySet.pageTable == old(memorySet.pageTable) && memorySet.areas == old(memorySet.areas)
  {
    mapped := SysMmap(memorySet, start, len, port);
    if mapped == 0 {
      MunmapAcceptsWhatMmapMapped(old(memorySet.pageTable), start, len, port);
    }
    unmapped := SysMunmap(memorySet, start, len, unmapAtOnce);
  }

  /** Once a range is mapped, an `mmap` of any range sharing a page with it
      is refused: some page of the new range is already valid. */
  lemma {:induction false} MmapRefusesOverlap(pt: PageTable, lo: nat, hi: nat, perm: bv8, lo2: nat, hi2: nat)
    requires lo < hi2 && lo2 < hi
    requires lo < hi && lo2 < hi2
    ensures SomePageValid(MapRange(pt, lo, hi, perm), lo2, hi2)
  {
    var v := if lo < lo2 then lo2 else lo;
    assert PageValid(MapRange(pt, lo, hi, perm), v);
  }

  /** The two calls read a missing page-table entry differently: for `mmap`
      the page is free, for `munmap` the range is not mapped. */
  lemma {:induction false} MissingEntryAsymmetry(pt: PageTable, vpn: nat)
    requires vpn !in pt
    ensures !SomePageValid(pt, vpn, vpn + 1)
    ensures !AllPagesValid(pt, vpn, vpn + 1)
  {
    assert !PageValid(pt, vpn);
  }

  // ---------------------------------------------------------------------
  // sys_waitpid
  // ---------------------------------------------------------------------

  /** The child filter of `sys_waitpid`: -1 matches every child, any other
      value matches the child whose pid equals it read as `usize`. */
  predicate Matches(pid: int, child: ChildRecord)
    requires IsIsize(pid)
  {
    pid == -1 || AsUsize(pid) == child.pid
  }

  /** A child that can be reaped: it matches and has exited. */
  predicate Reapable(pid: int, child: ChildRecord)
    requires IsIsize(pid)
  {
    child.isZombie && Matches(pid, child)
  }

  /** The index `find` stops at: the first reapable child. */
  function FirstReapable(children: seq<ChildRecord>, pid: int): (k: Option<nat>)
    requires IsIsize(pid)
    ensures k.Some? ==> k.value < |children| && Reapable(pid, children[k.value])
    ensures k.Some? ==> forall j :: 0 <= j < k.value ==> !Reapable(pid, children[j])
    ensures k.None? ==> forall j :: 0 <= j < |children| ==> !Reapable(pid, children[j])
  {
    if children == [] then None
    else if Reapable(pid, children[0]) then Some(0)
    else match FirstReapable(children[1..], pid)
      case None => None
      case Some(k) => Some(k + 1)
  }

  /** Every child pid fits in an `isize`, so the `found_pid as isize` that
      `sys_waitpid` returns is the pid itself. */
  predicate PidsFitIsize(children: seq<ChildRecord>)
  {
    forall i :: 0 <= i < |children| ==> children[i].pid <= ISIZE_MAX
  }

  /** The outcome of `sys_waitpid`: its return value, the children list
      afterwards, and the exit code written to the caller, if any. */
  datatype WaitOutcome = WaitOutcome(ret: int, children: seq<ChildRecord>, written: Option<int>)

  /**
    `sys_waitpid` on the calling task's `children`: -1 when no child
    matches, -2 when some child matches but none of those has exited, and
    otherwise the pid of the first exited matching child, which is removed
    with the other children kept in order, and whose exit code is written.
   */
  function Waitpid(children: seq<ChildRecord>, pid: int): (w: WaitOutcome)
    requires IsIsize(pid)
    requires PidsFitIsize(children)
    ensures w.ret == -1 <==> forall i :: 0 <= i < |children| ==> !Matches(pid, children[i])
    ensures w.ret == -2 <==>
      && (exists i :: 0 <= i < |children| && Matches(pid, children[i]))
      && (forall i :: 0 <= i < |children| && Matches(pid, children[i]) ==> !children[i].isZombie)
    ensures w.ret == -1 || w.ret == -2 || 0 <= w.ret <= ISIZE_MAX
    ensures PidsFitIsize(w.children)
    ensures (exists i :: 0 <= i < |children| && Reapable(pid, children[i])) ==> 0 <= w.ret
    ensures w.ret < 0 ==> w.children == children && w.written == None
    ensures 0 <= w.ret ==> exists k :: (
      && 0 <= k < |children|
      && Reapable(pid, children[k])
      && (forall j :: 0 <= j < k ==> !Reapable(pid, children[j]))
      && w.ret == children[k].pid
      && w.children == children[..k] + children[k + 1..]
      && w.written == Some(children[k].exitCode))
  {
    if forall i :: 0 <= i < |children| ==> !Matches(pid, children[i]) then
      WaitOutcome(-1, children, None)
    else match FirstReapable(children, pid)
      case None => WaitOutcome(-2, children, None)
      case Some(k) => WaitOutcome(children[k].pid, children[..k] + children[k + 1..], Some(children[k].exitCode))
  }

  /** Pids are distinct among the children. */
  predicate DistinctPids(children: seq<ChildRecord>)
  {
    forall i, j :: 0 <= i < j < |children| ==> children[i].pid != children[j].pid
  }

  /** A child is reaped at most once: after `waitpid(p)` returned `p`, with
      pids distinct, no child with pid `p` is left, so a second
      `waitpid(p)` fails with -1. */
  lemma {:induction false} ReapedChildIsGone(children: seq<ChildRecord>, p: int)
    requires 0 <= p <= ISIZE_MAX
    requires PidsFitIsize(children)
    requires DistinctPids(children)
    requires Waitpid(children, p).ret == p
    ensures Waitpid(Waitpid(children, p).children, p).ret == -1
  {
    var w := Waitpid(children, p);
    var k :| 0 <= k < |children| && Reapable(p, children[k]) && w.ret == children[k].pid
      && w.children == children[..k] + children[k + 1..];
    forall i | 0 <= i < |w.children|
      ensures !Matches(p, w.children[i])
    {
      if i < k {
        assert w.children[i] == children[i];
      } else {
        assert w.children[i] == children[i + 1];
      }
    }
  }

  /** Reaping removes exactly one child: the children afterwards and the
      reaped one together are the children before, as a multiset. */
  lemma {:induction false} ReapRemovesOneChild(children: seq<ChildRecord>, pid: int)
    requires IsIsize(pid)
    requires PidsFitIsize(children)
    requires 0 <= Waitpid(children, pid).ret
    ensures |Waitpid(children, pid).children| == |children| - 1
    ensures exists k :: 0 <= k < |children| &&
      multiset(Waitpid(children, pid).children) + multiset{children[k]} == multiset(children)
  {
    var w := Waitpid(children, pid);
    var k :| 0 <= k < |children| && w.children == children[..k] + children[k + 1..];
    assert children == children[..k] + [children[k]] + children[k + 1..];
    assert multiset(w.children) + multiset{children[k]} == multiset(children);
  }

  /** With all child pids below 2^63, a negative pid other than -1 matches
      no child: its `usize` reading is at least 2^63. */
  lemma NegativePidMatchesNoChild(children: seq<ChildRecord>, pid: int)
    requires ISIZE_MIN <= pid < -1
    requires PidsFitIsize(children)
    ensures Waitpid(children, pid).ret == -1
  {
  }

  /** The `i32` in user memory that `exit_code_ptr` points to. */
  class ExitCodeCell {
    var value: int

    constructor(value: int)
      ensures this.value == value
    {
      this.value := value;
    }
  }

  /**
    `sys_waitpid(pid, exit_code_ptr)`: the `any` scan, then the `find`
    scan, then the in-place removal and the write through the pointer. The
    result and the new state are those of `Waitpid`; the task is otherwise
    untouched. Child pids fit in an `isize`, so `found_pid as isize` is the
    pid.
   */
  method SysWaitpid(task: TaskControlBlock, pid: int, exitCode: ExitCodeCell) returns (r: int)
    requires IsIsize(pid)
    requires PidsFitIsize(task.children)
    modifies task, exitCode
    ensures r == Waitpid(old(task.children), pid).ret
    ensures task.children == Waitpid(old(task.children), pid).children
    ensures Waitpid(old(task.children), pid).written.Some? ==>
      exitCode.value == Waitpid(old(task.children), pid).written.value
    ensures Waitpid(old(task.children), pid).written.None? ==> exitCode.value == old(exitCode.value)
    ensures task.status == old(task.status) && task.priority == old(task.priority)
    ensures task.trapA0 == old(task.trapA0) && task.image == old(task.image)
  {
    var children := task.children;
    var i := 0;
    var found := false;
    while i < |children| && !found
      invariant i <= |children|
      invariant found ==> i < |children| && Matches(pid, children[i])
      invariant !found ==> forall j :: 0 <= j < i ==> !Matches(pid, children[j])
      decreases |children| - i, !found
    {
      if Matches(pid, children[i]) {
        found := true;
      } else {
        i := i + 1;
      }
    }
    if !found {
      return -1;
    }
    var k := 0;
    found := false;
    while k < |children| && !found
      invariant k <= |children|
      invariant found ==> k < |children| && Reapable(pid, children[k])
      invariant forall j :: 0 <= j < k ==> !Reapable(pid, children[j])
      decreases |children| - k, !found
    {
      if children[k].isZombie && Matches(pid, children[k]) {
        found := true;
      } else {
        k := k + 1;
      }
    }
    if !found {
      return -2;
    }
    var child := children[k];
    task.children := children[..k] + children[k + 1..];
    exitCode.value := child.exitCode;
    r := child.pid;
  }

  // ---------------------------------------------------------------------
  // sys_set_priority
  // ---------------------------------------------------------------------

  /** `sys_set_priority`: a priority of 1 or less is refused with -1 and the
      old priority stays; otherwise it is installed and returned. So a task
      whose priority is at least 2 keeps it at least 2. */
  method SysSetPriority(task: TaskControlBlock, prio: int) returns (r: int)
    requires IsIsize(prio)
    modifies task
    ensures prio <= 1 ==> r == -1 && task.priority == old(task.priority)
    ensures 1 < prio ==> r == prio && task.priority == prio
    ensures old(task.priority) >= 2 ==> task.priority >= 2
    ensures task.status == old(task.status) && task.children == old(task.children)
    ensures task.trapA0 == old(task.trapA0) && task.image == old(task.image)
  {
    if prio <= 1 {
      return -1;
    }
    task.priority := AsUsize(prio);
    r := prio;
  }

  // ---------------------------------------------------------------------
  // sys_fork / sys_exec / sys_spawn
  // ---------------------------------------------------------------------

  /**
    `sys_fork`: a copy of the calling task under the pid `newPid` handed out
    by the pid allocator, registered in the parent's children as a live
    child with exit code 0 (done inside `TaskControlBlock::fork`), with the
    child's saved a0 set to 0 so that fork returns 0 in the child; the child
    is added to the ready heap and its pid is returned to the parent.
   */
  method SysFork(parent: TaskControlBlock, manager: TaskManager, newPid: nat)
    returns (r: int, ghost child: TaskControlBlock)
    requires newPid <= ISIZE_MAX
    requires manager.Valid()
    modifies manager, parent
    ensures manager.Valid()
    ensures fresh(child)
    ensures r == newPid && child.pid == newPid
    ensures child.trapA0 == 0 && child.status == Ready && child.children == []
    ensures child.image == old(parent.image) && child.priority == old(parent.priority)
    ensures manager.Ready() == old(manager.Ready()) + multiset{child}
    ensures manager.added == old(manager.added) + multiset{child} && manager.fetched == old(manager.fetched)
    ensures parent.children == old(parent.children) + [ChildRecord(newPid, false, 0)]
    ensures parent.status == old(parent.status) && parent.priority == old(parent.priority)
    ensures parent.trapA0 == old(parent.trapA0) && parent.image == old(parent.image)
  {
    var newTask := new TaskControlBlock.Duplicate(parent, newPid);
    parent.children := parent.children + [ChildRecord(newPid, false, 0)];
    newTask.trapA0 := 0;
    manager.Add(newTask);
    child := newTask;
    r := newTask.pid;
  }

  /** `sys_exec`: a path the loader knows replaces the calling task's image
      in place, with a fresh trap context whose registers start at zero, and
      returns 0; an unknown path returns -1 and the task is unchanged. The
      pid and the children are kept either way. */
  method SysExec(task: TaskControlBlock, path: string, apps: map<string, seq<byte>>) returns (r: int)
    modifies task
    ensures r == 0 <==> path in apps
    ensures r == 0 || r == -1
    ensures path in apps ==> task.image == apps[path]
    ensures path in apps ==> task.trapA0 == 0
    ensures path !in apps ==> task.image == old(task.image) && task.trapA0 == old(task.trapA0)
    ensures task.children == old(task.children) && task.priority == old(task.priority)
    ensures task.status == old(task.status)
  {
    if path in apps {
      task.image := apps[path];
      task.trapA0 := 0;
      return 0;
    }
    r := -1;
  }

  /**
    `sys_spawn`: a path the loader knows yields a new task built directly
    from the image (the caller's memory is not copied), added to the ready
    heap and registered in the caller's children as a live child with exit
    code 0 (done inside `TaskControlBlock::spawn`); its pid is returned. An
    unknown path returns -1, and the ready heap and the caller are
    unchanged. `priority` is the priority the new task is created with.
   */
  method SysSpawn(parent: TaskControlBlock, manager: TaskManager, path: string,
                  apps: map<string, seq<byte>>, newPid: nat, priority: int)
    returns (r: int, ghost child: Option<TaskControlBlock>)
    requires newPid <= ISIZE_MAX
    requires manager.Valid()
    modifies manager, parent
    ensures manager.Valid()
    ensures path !in apps ==>
      && r == -1 && child == None && manager.Ready() == old(manager.Ready())
      && manager.added == old(manager.added) && manager.fetched == old(manager.fetched)
      && parent.children == old(parent.children)
    ensures path in apps ==>
      && r == newPid
      && child.Some? && fresh(child.value)
      && child.value.pid == newPid && child.value.image == apps[path]
      && child.value.status == Ready && child.value.children == []
      && child.value.priority == priority && child.value.trapA0 == 0
      && manager.Ready() == old(manager.Ready()) + multiset{child.value}
      && manager.added == old(manager.added) + multiset{child.value}
      && manager.fetched == old(manager.fetched)
      && parent.children == old(parent.children) + [ChildRecord(newPid, false, 0)]
    ensures parent.status == old(parent.status) && parent.priority == old(parent.priority)
    ensures parent.trapA0 == old(parent.trapA0) && parent.image == old(parent.image)
  {
    if path in apps {
      var newTask := new TaskControlBlock(newPid, apps[path], priority);
      parent.children := parent.children + [ChildRecord(newPid, false, 0)];
      manager.Add(newTask);
      child := Some(newTask);
      r := newTask.pid;
    } else {
      child := None;
      r := -1;
    }
  }

  // ---------------------------------------------------------------------
  // sys_get_time / sys_task_info
  // ---------------------------------------------------------------------

  const MICROS_PER_SEC: nat := 1_000_000
  const WORD_BYTES: nat := 8

  /** `TimeVal`, two `usize` fields in declaration order. */
  datatype TimeVal = TimeVal(sec: nat, usec: nat)

  /** The split of a microsecond clock reading into seconds and the
      microsecond remainder. */
  function SplitTime(us: nat): (tv: TimeVal)
    ensures tv.sec * MICROS_PER_SEC + tv.usec == us
    ensures tv.usec < MICROS_PER_SEC
  {
    TimeVal(us / MICROS_PER_SEC, us % MICROS_PER_SEC)
  }

  /** The split is the only one with an in-range remainder. */
  lemma SplitTimeUnique(us: nat, tv: TimeVal)
    requires tv.sec * MICROS_PER_SEC + tv.usec == us
    requires tv.usec < MICROS_PER_SEC
    ensures tv == SplitTime(us)
  {
  }

  predicate FitsWords(tv: TimeVal)
  {
    tv.sec < Pow256(WORD_BYTES) && tv.usec < Pow256(WORD_BYTES)
  }

  /** The 16 bytes of a `TimeVal` on the little-endian 64-bit target. */
  function TimeValBytes(tv: TimeVal): (bytes: seq<byte>)
    requires FitsWords(tv)
    ensures |bytes| == 2 * WORD_BYTES
  {
    LittleEndian(tv.sec, WORD_BYTES) + LittleEndian(tv.usec, WORD_BYTES)
  }

  /** How user space reads those 16 bytes back. */
  function DecodeTimeVal(bytes: seq<byte>): (tv: TimeVal)
    requires |bytes| == 2 * WORD_BYTES
    ensures FitsWords(tv)
  {
    TimeVal(FromLittleEndian(bytes[..WORD_BYTES]), FromLittleEndian(bytes[WORD_BYTES..]))
  }

  lemma {:induction false} TimeValRoundTrip(tv: TimeVal)
    requires FitsWords(tv)
    ensures DecodeTimeVal(TimeValBytes(tv)) == tv
  {
    var bytes := TimeValBytes(tv);
    assert bytes[..WORD_BYTES] == LittleEndian(tv.sec, WORD_BYTES);
    assert bytes[WORD_BYTES..] == LittleEndian(tv.usec, WORD_BYTES);
    LittleEndianRoundTrip(tv.sec, WORD_BYTES);
    LittleEndianRoundTrip(tv.usec, WORD_BYTES);
  }

  /** The bytes `sys_get_time` lays out for the clock reading `now` (a
      `usize` of microseconds): they decode to the split of `now`. */
  function TimeValAt(now: nat): (bytes: seq<byte>)
    requires now < USIZE_MODULUS
    ensures |bytes| == 2 * WORD_BYTES
    ensures DecodeTimeVal(bytes) == SplitTime(now)
  {
    assert USIZE_MODULUS == Pow256(WORD_BYTES);
    TimeValRoundTrip(SplitTime(now));
    TimeValBytes(SplitTime(now))
  }

  /**
    `sys_get_time` as written: the `TimeVal` for `now` is copied into the
    translated destination pages with the offset `index * dst.len()`.
    `trailing` is the memory that follows the `TimeVal` on the kernel stack,
    which a chunk read past the value's end picks up. Chunk `i` holds the
    bytes read from its as-written offset; only when all chunks have one
    length do they decode to the split of `now`.
   */
  method SysGetTime(now: nat, trailing: seq<byte>, chunks: seq<array<byte>>) returns (r: int)
    requires now < USIZE_MODULUS
    requires Distinct(chunks)
    requires Offset(Lengths(chunks), |chunks|) == 2 * WORD_BYTES
    requires forall i :: 0 <= i < |chunks| ==>
      AsWrittenOffset(Lengths(chunks), i) + chunks[i].Length <= 2 * WORD_BYTES + |trailing|
    modifies set i | 0 <= i < |chunks| :: chunks[i]
    ensures r == 0
    ensures forall i :: 0 <= i < |chunks| ==>
      HoldsAtAsWritten(TimeValAt(now) + trailing, Snapshot(chunks), Lengths(chunks), i)
    ensures EqualLengths(Lengths(chunks)) ==>
      && Join(Snapshot(chunks), |chunks|) == TimeValAt(now)
      && DecodeTimeVal(Join(Snapshot(chunks), |chunks|)) == SplitTime(now)
  {
    var bytes := TimeValAt(now);
    CopyChunksAsWritten(bytes + trailing, chunks);
    assert (bytes + trailing)[..2 * WORD_BYTES] == bytes;
    r := 0;
  }

  /** `sys_get_time` with the copy offset corrected: the destination pages
      joined always decode to exactly the split of `now`. */
  method SysGetTimeCorrected(now: nat, chunks: seq<array<byte>>) returns (r: int)
    requires now < USIZE_MODULUS
    requires Distinct(chunks)
    requires Offset(Lengths(chunks), |chunks|) == 2 * WORD_BYTES
    modifies set i | 0 <= i < |chunks| :: chunks[i]
    ensures r == 0
    ensures Join(Snapshot(chunks), |chunks|) == TimeValAt(now)
    ensures DecodeTimeVal(Join(Snapshot(chunks), |chunks|)) == SplitTime(now)
  {
    CopyChunks(TimeValAt(now), chunks);
    r := 0;
  }

  const MAX_SYSCALL_NUM: nat := 500
  const U32_LIMIT: nat := 0x1_0000_0000

  /** `TaskInfo`: status, per-syscall counters and age in milliseconds. */
  datatype TaskInfo = TaskInfo(status: TaskStatus, syscallTimes: seq<nat>, time: nat)

  /** The age `now/1000 - created/1000`: both readings are truncated to
      milliseconds before subtracting, so the result is the true age in
      milliseconds, rounded down, or one more. */
  function AgeMs(now: nat, created: nat): (ms: nat)
    requires created <= now
    ensures (now - created) / 1000 <= ms <= (now - created) / 1000 + 1
  {
    AgeMsBounds(now, created);
    now / 1000 - created / 1000
  }

  lemma {:induction false} AgeMsBounds(now: nat, created: nat)
    requires created <= now
    ensures created / 1000 <= now / 1000
    ensures (now - created) / 1000 <= now / 1000 - created / 1000 <= (now - created) / 1000 + 1
  {
    var a, b := now / 1000, created / 1000;
    var ra, rb := now % 1000, created % 1000;
    assert now == a * 1000 + ra && created == b * 1000 + rb;
    var d := (now - created) / 1000;
    assert now - created == (a - b) * 1000 + (ra - rb);
    if ra >= rb {
      assert d == a - b;
    } else {
      assert now - created == (a - b - 1) * 1000 + (1000 + ra - rb);
      assert d == a - b - 1;
    }
  }

  /**
    `sys_task_info` as written: the running task's status, syscall counters
    and age `AgeMs(now, created)`, laid out by `layout` (the `repr(Rust)`
    layout of `TaskInfo`, which is not part of this model) and copied into
    the translated destination pages with the offset `index * dst.len()`.
    `trailing` is the memory after the value on the kernel stack. Only when
    all chunks have one length do the pages hold exactly the laid-out value.
   */
  method SysTaskInfo(status: TaskStatus, syscallTimes: seq<nat>, created: nat, now: nat,
                     layout: TaskInfo -> seq<byte>, trailing: seq<byte>, chunks: seq<array<byte>>)
    returns (r: int, ghost info: TaskInfo)
    requires created <= now
    requires |syscallTimes| == MAX_SYSCALL_NUM
    requires forall i :: 0 <= i < |syscallTimes| ==> syscallTimes[i] < U32_LIMIT
    requires Distinct(chunks)
    requires Offset(Lengths(chunks), |chunks|) == |layout(TaskInfo(status, syscallTimes, AgeMs(now, created)))|
    requires forall i :: 0 <= i < |chunks| ==>
      AsWrittenOffset(Lengths(chunks), i) + chunks[i].Length
        <= |layout(TaskInfo(status, syscallTimes, AgeMs(now, created)))| + |trailing|
    modifies set i | 0 <= i < |chunks| :: chunks[i]
    ensures r == 0
    ensures info.status == status && info.syscallTimes == syscallTimes
    ensures info.time == AgeMs(now, created)
    ensures forall i :: 0 <= i < |chunks| ==>
      HoldsAtAsWritten(layout(info) + trailing, Snapshot(chunks), Lengths(chunks), i)
    ensures EqualLengths(Lengths(chunks)) ==> Join(Snapshot(chunks), |chunks|) == layout(info)
  {
    var taskInfo := TaskInfo(status, syscallTimes, AgeMs(now, created));
    var bytes := layout(taskInfo);
    CopyChunksAsWritten(bytes + trailing, chunks);
    assert (bytes + trailing)[..|bytes|] == bytes;
    info := taskInfo;
    r := 0;
  }

  /** `sys_task_info` with the copy offset corrected: the destination pages
      joined are always exactly the laid-out `TaskInfo`. */
  method SysTaskInfoCorrected(status: TaskStatus, syscallTimes: seq<nat>, created: nat, now: nat,
                              layout: TaskInfo -> seq<byte>, chunks: seq<array<byte>>)
    returns (r: int, ghost info: TaskInfo)
    requires created <= now
    requires |syscallTimes| == MAX_SYSCALL_NUM
    requires forall i :: 0 <= i < |syscallTimes| ==> syscallTimes[i] < U32_LIMIT
    requires Distinct(chunks)
    requires Offset(Lengths(chunks), |chunks|) == |layout(TaskInfo(status, syscallTimes, AgeMs(now, created)))|
    modifies set i | 0 <= i < |chunks| :: chunks[i]
    ensures r == 0
    ensures info.status == status && info.syscallTimes == syscallTimes
    ensures info.time == AgeMs(now, created)
    ensures Join(Snapshot(chunks), |chunks|) == layout(info)
  {
    var taskInfo := TaskInfo(status, syscallTimes, AgeMs(now, created));
    CopyChunks(layout(taskInfo), chunks);
    info := taskInfo;
    r := 0;
  }
}
