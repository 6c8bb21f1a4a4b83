/**
  The task control block as far as the scheduler and the process syscalls
  touch it. The block itself lives in a file that is not part of this model;
  its fields here are the ones those syscalls read or write.
 */
module Tcb {
  import opened UserCopy

  datatype TaskStatus = Ready | Running | Zombie

  /** What `sys_waitpid` reads of one child: its pid, whether it has exited,
      and the code it exited with. */
  datatype ChildRecord = ChildRecord(pid: nat, isZombie: bool, exitCode: int)

  /** A task. Tasks are shared (`Arc`), so a task is an object and every
      holder sees the writes made through another. */
  class TaskControlBlock {
    const pid: nat
    var status: TaskStatus
    var priority: int
    /** Register `x[10]` (a0) of the saved trap context: the value the task
        sees returned from the system call that suspended it. */
    var trapA0: int
    /** The application image the task's address space was loaded from. */
    var image: seq<byte>
    var children: seq<ChildRecord>

    /** A new task built from an application image (`TaskControlBlock::new`
        and `spawn`). */
    constructor(pid: nat, image: seq<byte>, priority: int)
      ensures this.pid == pid && this.image == image && this.priority == priority
      ensures status == Ready && children == [] && trapA0 == 0
    {
      this.pid := pid;
      this.image := image;
      this.priority := priority;
      status := Ready;
      children := [];
      trapA0 := 0;
    }

    /** `TaskControlBlock::fork`: a copy of `parent` under a new pid. */
    constructor Duplicate(parent: TaskControlBlock, pid: nat)
      ensures this.pid == pid && image == parent.image && priority == parent.priority
      ensures trapA0 == parent.trapA0
      ensures status == Ready && children == []
    {
      this.pid := pid;
      image := parent.image;
      priority := parent.priority;
      trapA0 := parent.trapA0;
      status := Ready;
      children := [];
    }
  }

  /** The ordering `Ord for TaskControlBlock` is not part of this model; it is
      represented by a rank: `a` is no greater than `b` exactly when
      `rank(a) <= rank(b)`. This is the general total preorder on any finite
      set of tasks. */
  type Rank = TaskControlBlock -> int

  /** `t` is greatest among `tasks` under the task ordering. */
  ghost predicate IsMaximal(rank: Rank, t: TaskControlBlock, tasks: seq<TaskControlBlock>)
  {
    forall u :: u in tasks ==> rank(u) <= rank(t)
  }
}
