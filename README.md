# Process management core of a RISC-V teaching kernel, in Dafny

This project models the process-management core of a small preemptive
RISC-V kernel (an rCore lab kernel). It covers three parts:

- the system calls that manage tasks: `fork`, `exec`, `spawn`, `waitpid`
  and `set_priority`;
- the calls that manage the calling task's address space: `mmap` and
  `munmap`;
- the two telemetry calls, `get_time` and `task_info`, which copy a
  structure into a user buffer that may straddle pages.

It also models the scheduler plumbing beneath these calls:

- the task manager's ready heap (`TaskManager`);
- the one-slot processor (`Processor`);
- one step of the dispatch loop;
- the all-or-nothing page-range check of `unmap_the_area`.

Modules, one per concern:

- `Wrappers`: `Option`.
- `Tcb`: the task control block. It has only the fields these calls read
  or write: pid, status, priority, the saved `a0`, the application image,
  and the children as `(pid, isZombie, exitCode)` records. It also has the
  task ordering, given as a rank.
- `MemorySets`: the memory set of a task. It is a map from virtual page
  number to page-table entry, plus the list of inserted areas. It provides
  `floor`/`ceil`, `translate` and `insert_framed_area`.
- `Manager` (`os/src/task/manager.rs`): the ready heap. It is a max-heap, so
  `fetch` returns a greatest task under the task ordering.
- `Dispatch` (`os/src/task/processor.rs`): the processor slot, one
  iteration of `run_tasks`, and `unmap_the_area`.
- `UserCopy`: the chunked copy into page-split user memory, the same copy
  as the code writes it, and the little-endian layout of a machine word.
- `ProcessSyscalls` (`os/src/syscall/process.rs`): the system calls.

Collaborators whose bodies are outside these files are modelled as follows:

- `MemorySet::translate` and `insert_framed_area` are small concrete models:
  the insert maps every page of the area valid and appends the area.
- `MemorySet::unmap_at_once` is a function parameter.
- The TCB `Ord` is a rank function fixed per manager.
- `TaskControlBlock::fork` is a constructor that copies the image, the
  priority and the saved `a0`, plus the parent's registration of the child.
- `TaskControlBlock::new`/`spawn` is a constructor from an image, plus the
  same registration.
- `TaskControlBlock::exec` replaces the image and zeroes the saved `a0`.
- The loader is a map from application name to image.
- The clock is an input value.
- The pid allocator is an input value.
- The user buffer is a sequence of distinct byte arrays, one per page
  touched.

## Model

| member | source | states |
|---|---|---|
| MemorySets.Floor | os/src/syscall/process.rs:197 | the page number whose page contains the address |
| MemorySets.Ceil | os/src/syscall/process.rs:198 | the first page boundary at or above the address, less than one page above it |
| MemorySets.PageRangeCoversRequest | os/src/syscall/process.rs:193-198 | for an aligned start the page range begins exactly at `start` and covers `[start, start+len)` with less than a page of slack |
| MemorySets.MapRange | os/src/syscall/process.rs:208-209 | after mapping, every page of the range is a valid entry with the given permission and every other entry is as before |
| MemorySets.InsertFreshAreaKeepsWellFormed | os/src/syscall/process.rs:199-209 | inserting an area none of whose pages is validly mapped keeps every area mapped and all areas pairwise disjoint |
| MemorySets.MemorySet.Translate | os/src/task/processor.rs:106-108 | an entry is returned exactly when the page has one, and it is that entry |
| MemorySets.MemorySet.InsertFramedArea | os/src/task/processor.rs:110-112 | the area is appended and its pages are mapped valid with its permission |
| Tcb.TaskControlBlock.constructor | os/src/syscall/process.rs:254 | a task built from an image is Ready, has no children and keeps the given pid |
| Tcb.TaskControlBlock.Duplicate | os/src/syscall/process.rs:55 | a forked task has the new pid, the parent's image, priority and saved a0, is Ready and has no children |
| Manager.MaxPosition | os/src/task/manager.rs:31 | the position returned holds a task no smaller than any other in the heap |
| Manager.RemoveAtMultiset | os/src/task/manager.rs:31 | removing one position removes exactly one occurrence of its task |
| Manager.TaskManager.constructor | os/src/task/manager.rs:17-22 | the ready heap starts empty and nothing has been added or fetched |
| Manager.TaskManager.Add | os/src/task/manager.rs:24-27 | the ready multiset grows by exactly the task, and the added/fetched conservation invariant is kept |
| Manager.TaskManager.Fetch | os/src/task/manager.rs:29-33 | empty heap: None and nothing changes; otherwise one maximal task, removed once, with conservation kept |
| Dispatch.Processor.constructor | os/src/task/processor.rs:28-33 | no task is current |
| Dispatch.Processor.TakeCurrent | os/src/task/processor.rs:41-43 | returns the previous current task and leaves the slot empty |
| Dispatch.Processor.Current | os/src/task/processor.rs:46-48 | returns the current task and changes nothing |
| Dispatch.RunTasksStep | os/src/task/processor.rs:60-77 | empty heap: nothing changes; otherwise a maximal ready task is removed, marked Running and installed as current; no other ready task's status changes, and no ready task's priority, saved a0, image or children change |
| Dispatch.UnmapTheArea | os/src/task/processor.rs:114-131 | a page of the range with no entry or an invalid one gives -1 with the memory set untouched; otherwise the outcome is `unmap_at_once` on exactly that range |
| UserCopy.AsWrittenOffsetWhenLeadingEqual | os/src/syscall/process.rs:138 | the offset `i * len(chunk i)` equals the running offset when all earlier chunks have chunk i's length |
| UserCopy.OffsetOfEqualPrefix | os/src/syscall/process.rs:138 | n chunks of length c end at n·c |
| UserCopy.OffsetMonotone | os/src/syscall/process.rs:135-140 | every chunk lies within the span of the chunks that include it |
| UserCopy.JoinIsPrefix | os/src/syscall/process.rs:135-140 | chunks holding the value's bytes at their running offsets join to a prefix of the value |
| UserCopy.CopyFromSlice | os/src/syscall/process.rs:138 | `copy_from_slice`: the chunk receives exactly the source bytes from the given offset |
| UserCopy.CopyChunks | os/src/syscall/process.rs:135-140 | corrected copy: every chunk holds the value's bytes from its running offset, and the chunks joined are the value |
| UserCopy.CopyChunksAsWritten | os/src/syscall/process.rs:168-173 | copy as written: chunk i holds the bytes from `i * len(chunk i)` of the memory read; when all chunks have one length, the chunks joined are its leading bytes |
| UserCopy.UnequalSplitReadsWrongBytes | os/src/syscall/process.rs:138 | a 10+6 split: the second chunk is read from offset 6, not 10 |
| UserCopy.UnequalSplitReadsPastEnd | os/src/syscall/process.rs:138 | a 6+10 split: the second chunk's read ends at byte 20 of a 16-byte value |
| UserCopy.UnequalSplitMisreads | os/src/syscall/process.rs:171 | any two-chunk split with unequal lengths misplaces the second chunk, and reads past the end when it is the longer one |
| UserCopy.Pow256 | os/src/syscall/process.rs:17-20 | the bound of an n-byte value is positive |
| UserCopy.LittleEndian | os/src/syscall/process.rs:17-20 | an n-byte word lies in memory as exactly n bytes |
| UserCopy.FromLittleEndian | os/src/syscall/process.rs:17-20 | n bytes read back give a value below 256^n |
| UserCopy.LittleEndianRoundTrip | os/src/syscall/process.rs:17-20 | reading back the bytes of a word gives the word |
| ProcessSyscalls.AsUsize | os/src/syscall/process.rs:92 | `pid as usize` is below 2^64, congruent to pid modulo 2^64, and pid itself when non-negative |
| ProcessSyscalls.PortAccepted | os/src/syscall/process.rs:184-191 | the two port guards together accept exactly the ports 1 to 7 |
| ProcessSyscalls.Permission | os/src/syscall/process.rs:208-209 | port bits 0, 1, 2 become R, W, X; U is always set; no unknown bit survives |
| ProcessSyscalls.SysMmap | os/src/syscall/process.rs:179-212 | -1 exactly on a bad port, a misaligned start or an already-valid page, with nothing changed; otherwise 0, one area with the range and permission appended, the pages mapped; the address-space invariant is kept |
| ProcessSyscalls.SysMunmap | os/src/syscall/process.rs:215-230 | misaligned start or a page not validly mapped: -1, nothing changes; otherwise the `unmap_at_once` outcome on the page range |
| ProcessSyscalls.MunmapAcceptsWhatMmapMapped | os/src/syscall/process.rs:208-209 | every page a successful mmap maps is validly mapped afterwards, which is munmap's page condition |
| ProcessSyscalls.MmapThenMunmap | os/src/syscall/process.rs:179-230 | a munmap after a successful mmap of the same range passes both checks and hands exactly the just-mapped area to `unmap_at_once`; after a failed mmap it sees the memory set unchanged |
| ProcessSyscalls.MmapRefusesOverlap | os/src/syscall/process.rs:199-205 | once a range is mapped, an mmap of any range sharing a page with it is refused |
| ProcessSyscalls.MissingEntryAsymmetry | os/src/syscall/process.rs:200-204 | a page with no entry is free for mmap yet makes munmap fail |
| ProcessSyscalls.FirstReapable | os/src/syscall/process.rs:97-101 | the index found is an exited matching child with none before it; None means no child is both |
| ProcessSyscalls.Waitpid | os/src/syscall/process.rs:82-116 | with every child pid fitting in an `isize`: the result is -1, -2 or a pid no larger than 2^63 - 1; -1 iff no child matches; -2 iff some match but none of them exited; both leave children unchanged and write nothing; an exited matching child forces a pid, and then the first such child is removed, others kept in order, its exit code written and its pid returned; the children left still fit in an `isize` |
| ProcessSyscalls.ReapedChildIsGone | os/src/syscall/process.rs:103-111 | with distinct pids, after waitpid(p) returned p a second waitpid(p) returns -1 |
| ProcessSyscalls.ReapRemovesOneChild | os/src/syscall/process.rs:103 | a successful reap removes exactly one child, as a multiset |
| ProcessSyscalls.NegativePidMatchesNoChild | os/src/syscall/process.rs:92 | with child pids fitting in an `isize`, a negative pid other than -1 finds no child |
| ProcessSyscalls.SysWaitpid | os/src/syscall/process.rs:82-116 | with child pids fitting in an `isize`: return value, new children list and written exit code are those of `Waitpid`; the rest of the task is unchanged |
| ProcessSyscalls.SysSetPriority | os/src/syscall/process.rs:288-299 | a priority of 1 or less gives -1 and keeps the old one; otherwise it is set and returned; a priority of at least 2 stays at least 2 |
| ProcessSyscalls.SysFork | os/src/syscall/process.rs:52-65 | a fresh child with the new pid, the parent's image and priority, a0 = 0 and no children, added once to the ready heap (and counted once as added, nothing fetched) and appended to the parent's children as a live child; the parent's other fields are kept and it gets the pid |
| ProcessSyscalls.SysExec | os/src/syscall/process.rs:67-78 | 0 iff the loader knows the path, and then the image is replaced and the saved a0 starts at zero; -1 leaves image and a0 as they were; pid, children, priority and status are kept either way |
| ProcessSyscalls.SysSpawn | os/src/syscall/process.rs:244-261 | known path: a fresh Ready task with the new pid, the image, the given priority and a0 = 0, added once to the ready heap (and counted once as added, nothing fetched) and appended to the caller's children, pid returned; unknown: -1 with the heap, its counts and the caller's children unchanged; the caller's other fields are kept |
| ProcessSyscalls.SplitTime | os/src/syscall/process.rs:128-132 | sec·1 000 000 + usec equals the reading and usec < 1 000 000 |
| ProcessSyscalls.SplitTimeUnique | os/src/syscall/process.rs:130-131 | that is the only split with an in-range microsecond part |
| ProcessSyscalls.TimeValBytes | os/src/syscall/process.rs:15-20 | a `TimeVal` occupies 16 bytes |
| ProcessSyscalls.DecodeTimeVal | os/src/syscall/process.rs:15-20 | 16 bytes decode to two words that each fit in 64 bits |
| ProcessSyscalls.TimeValRoundTrip | os/src/syscall/process.rs:15-20 | decoding the bytes of a `TimeVal` gives it back |
| ProcessSyscalls.TimeValAt | os/src/syscall/process.rs:128-133 | the 16 bytes laid out for a clock reading decode to its seconds/microseconds split |
| ProcessSyscalls.SysGetTime | os/src/syscall/process.rs:121-142 | returns 0; chunk i holds the bytes read from `i * len(chunk i)` of the `TimeVal` and the memory after it; when all chunks have one length, the buffer decodes to the split of the clock reading |
| ProcessSyscalls.SysGetTimeCorrected | os/src/syscall/process.rs:121-142 | with the copy offset corrected, the buffer always decodes to exactly the split of the clock reading |
| ProcessSyscalls.AgeMs | os/src/syscall/process.rs:161 | the age is the true millisecond age rounded down, or one more |
| ProcessSyscalls.AgeMsBounds | os/src/syscall/process.rs:161 | truncating both readings before subtracting errs by at most one millisecond upwards |
| ProcessSyscalls.SysTaskInfo | os/src/syscall/process.rs:147-176 | returns 0; the `TaskInfo` carries the task's status, counters and exactly `now/1000 - created/1000`; chunk i holds the bytes read from `i * len(chunk i)` of its layout and the memory after it; when all chunks have one length, the buffer holds exactly the layout |
| ProcessSyscalls.SysTaskInfoCorrected | os/src/syscall/process.rs:147-176 | with the copy offset corrected, the buffer always holds exactly the laid-out `TaskInfo` |

## Left out

- `sys_exit`, `sys_yield`, `sys_getpid` and `sys_sbrk` are out of scope. `exit` never returns. `yield` is a context switch. `getpid` only reads the pid. `sbrk` forwards to `change_program_brk`, whose body is not part of this model.
- `schedule`, `__switch`, the idle context and the unbounded `loop` of `run_tasks` are left out. Control transfers are not behaviour of the model, so `Dispatch.RunTasksStep` is one iteration.
- `UPSafeCell`, `lazy_static` and `exclusive_access` are modelled as plain objects passed in. Borrow scoping is not behaviour.
- The `Arc::strong_count(&child) == 1` assertion in `sys_waitpid` is not modelled. Tasks are heap objects with no reference count.
- The logging macros (`trace!`, `println!`, `debug!`, `warn!`) are left out.
- Raw-pointer translation (`translated_str`, `translated_refmut`, `translated_byte_buffer`, `from_raw_parts`, `wrapping_byte_add`) is replaced by its results. These are a path string, an exit-code cell, and a list of distinct page chunks.
- The body of `MemorySet::unmap_at_once` is not part of this model. It is the parameter `unmapAtOnce` of `Dispatch.UnmapTheArea` and `ProcessSyscalls.SysMunmap`.
- The TCB `Ord` is not part of this model. It is a rank fixed for the manager's lifetime. A stride that changes while a task sits in the heap, which would break the heap order, is not modelled.
- Manager.TaskManager.Fetch: the `BinaryHeap` layout is not modelled. The heap is a sequence, and only the multiset of ready tasks and the maximality of the popped task are stated. Which of several equal tasks is popped is left open.
- Permission bits and `PAGE_SIZE` come from files that are not part of this model. They use the usual values: R/W/X/U at bits 1–4, and 4096.
- The alignment check `start & (PAGE_SIZE - 1) != 0` is modelled as `start % PAGE_SIZE != 0`. The two agree because PAGE_SIZE is a power of two.
- ProcessSyscalls.SysMmap: the overflow of `start + len` in `usize`, and `VirtAddr`'s truncation to 39 bits, are excluded by the precondition that the request fits in the Sv39 address space.
- ProcessSyscalls.SysMunmap: carries the same precondition as `sys_mmap`.
- Dispatch.UnmapTheArea: carries the same precondition as `sys_mmap`.
- ProcessSyscalls.SysWaitpid: child pids must fit in an `isize` (a precondition, `PidsFitIsize`), as must the pids handed to fork and spawn. So `found_pid as isize` is the pid itself, and the wrap of a pid of 2^63 or more to a negative `isize` is not modelled. The wrap of a negative `pid as usize` is modelled explicitly by `AsUsize`.
- ProcessSyscalls.Waitpid: carries the same `PidsFitIsize` bound on the children as `SysWaitpid`, for the same reason.
- ProcessSyscalls.SysFork: registering the child in the parent's `children` happens inside `TaskControlBlock::fork`, which is not part of this model. It is given as an abstract effect: a record `(newPid, not exited, exit code 0)` is appended. Children are records, not shared task handles, so a child's later exit does not show in the parent's record; the model does not capture that aliasing.
- ProcessSyscalls.SysSpawn: registration inside `TaskControlBlock::spawn` is given the same abstract effect as for fork. The new task's priority is the parameter `priority`, because the constructor that picks it is not part of this model.
- ProcessSyscalls.SysExec: the trap-context reset and the address-space rebuild done by `TaskControlBlock::exec` are summed up as replacing the image and zeroing the saved a0. The new entry point and stack pointer are not modelled.
- ProcessSyscalls.SysTaskInfo: the byte layout of `TaskInfo` (`repr(Rust)`) is the parameter `layout`. The status, counters and creation time are inputs, since they are read through getters of the running task.
- UserCopy.CopyChunksAsWritten: reads past the end of the value are modelled as reads of `trailing`, the bytes that follow the value on the kernel stack. Their contents are a parameter. Every read is required to stay inside the value plus `trailing`, so a read that runs off the mapped stack is not modelled.
- The doc comment "A simple FIFO scheduler" on `TaskManager` is stale. The code pops the greatest task, and the model follows the code.

## Findings

| source | as written | input that shows it | evidently intended | confidence | as-written member | corrected member |
|---|---|---|---|---|---|---|
| os/src/syscall/process.rs:138 (and 171) | chunk `index` is copied from offset `index * dst.len()`, with `dst.len()` the length of that chunk | a structure whose user address lies 6 bytes before a page boundary: chunks of 6 and 10 bytes; the second chunk is read from offset 10 for 10 bytes, 4 bytes past the end of a 16-byte `TimeVal`; a 10 + 6 split reads the second chunk from offset 6 instead of 10 | each chunk is copied from the running sum of the earlier chunks' lengths | not executed | ProcessSyscalls.SysGetTime, ProcessSyscalls.SysTaskInfo, UserCopy.CopyChunksAsWritten, UserCopy.UnequalSplitMisreads | UserCopy.CopyChunks, ProcessSyscalls.SysGetTimeCorrected, ProcessSyscalls.SysTaskInfoCorrected |
