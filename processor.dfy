/**
  The processor: the one slot that holds the running task, one step of the
  dispatch loop that fills it from the task manager, and the all-or-nothing
  unmapping of a page range of the running task's memory set.
 */
module Dispatch {
  import opened Wrappers
  import opened Tcb
  import opened Manager
  import opened MemorySets

  class Processor {
    /** The task currently executing, if any. */
    var current: Option<TaskControlBlock>

    /** `Processor::new`: no task is running yet. */
    constructor()
      ensures current == None
    {
      current := None;
    }

    /** `Processor::take_current` (and `take_current_task`): hands out the
        running task and leaves the processor idle. */
    method TakeCurrent() returns (task: Option<TaskControlBlock>)
      modifies this
      ensures task == old(current)
      ensures current == None
    {
      task := current;
      current := None;
    }

    /** `Processor::current` (and `current_task`): a handle to the running
        task; the processor is left as it was. */
    method Current() returns (task: Option<TaskControlBlock>)
      ensures task == current
    {
      task := current;
    }
  }

  /**
    One iteration of `run_tasks`: fetch the next task; if there is one, mark
    it Running and install it as the current task (the switch onto its saved
    context follows and is not modelled). If the ready heap is empty the
    iteration only warns, and nothing changes.
   */
  method RunTasksStep(processor: Processor, manager: TaskManager) returns (task: Option<TaskControlBlock>)
    requires manager.Valid()
    modifies processor, manager, manager.readyHeap
    ensures manager.Valid() && manager.added == old(manager.added)
    ensures old(manager.readyHeap) == [] ==>
      && task == None
      && processor.current == old(processor.current)
      && manager.readyHeap == [] && manager.fetched == old(manager.fetched)
    ensures old(manager.readyHeap) != [] ==>
      && task.Some?
      && task.value.status == Running
      && processor.current == task
      && task.value in old(manager.Ready())
      && IsMaximal(manager.rank, task.value, old(manager.readyHeap))
      && manager.Ready() == old(manager.Ready()) - multiset{task.value}
    ensures forall t :: t in old(manager.readyHeap) && Some(t) != task ==> t.status == old(t.status)
    ensures forall t :: t in old(manager.readyHeap) ==>
      && t.priority == old(t.priority) && t.trapA0 == old(t.trapA0)
      && t.image == old(t.image) && t.children == old(t.children)
  {
    task := manager.Fetch();
    if task.Some? {
      task.value.status := Running;
      processor.current := task;
    }
  }

  /**
    `unmap_the_area`: every page of `[Floor(start), Ceil(start + len))` must
    be validly mapped; a page with no entry, or with an invalid one, fails
    the call with -1 and the memory set is not touched. Otherwise the result
    is that of `MemorySet::unmap_at_once` on exactly that page range; its
    body is not part of this model, so it is the parameter `unmapAtOnce`.
   */
  method UnmapTheArea(memorySet: MemorySet, start: nat, len: nat,
                      unmapAtOnce: (PageTable, seq<MapArea>, nat, nat) -> (PageTable, seq<MapArea>, int))
    returns (r: int)
    requires FitsInAddressSpace(start, len)
    modifies memorySet
    ensures !AllPagesValid(old(memorySet.pageTable), Floor(start), Ceil(start + len)) ==>
      r == -1 && memorySet.pageTable == old(memorySet.pageTable) && memorySet.areas == old(memorySet.areas)
    ensures AllPagesValid(old(memorySet.pageTable), Floor(start), Ceil(start + len)) ==>
      (memorySet.pageTable, memorySet.areas, r)
        == unmapAtOnce(old(memorySet.pageTable), old(memorySet.areas), Floor(start), Ceil(start + len))
  {
    var startVpn := Floor(start);
    var endVpn := Ceil(start + len);
    var vpn := startVpn;
    while vpn < endVpn
      invariant startVpn <= vpn
      invariant forall v :: startVpn <= v < vpn ==> PageValid(memorySet.pageTable, v)
    {
      var pte := memorySet.Translate(vpn);
      if pte.Some? {
        if !pte.value.valid {
          assert !PageValid(memorySet.pageTable, vpn);
          return -1;
        }
      } else {
        assert !PageValid(memorySet.pageTable, vpn);
        return -1;
      }
      vpn := vpn + 1;
    }
    var (pageTable', areas', result) := unmapAtOnce(memorySet.pageTable, memorySet.areas, startVpn, endVpn);
    memorySet.pageTable, memorySet.areas := pageTable', areas';
    r := result;
  }
}
