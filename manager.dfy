/**
  The task manager: the ready heap from which the dispatcher fetches the
  next task. It is a max-heap (`BinaryHeap`), so `fetch` yields a task that
  is greatest under the task ordering, not the one that waited longest.
 */
module Manager {
  import opened Wrappers
  import opened Tcb

  /** A position of `tasks` holding a greatest task: the element a max-heap
      pops. Among equals the first position is chosen. */
  method MaxPosition(tasks: seq<TaskControlBlock>, rank: Rank) returns (k: nat)
    requires |tasks| > 0
    ensures k < |tasks|
    ensures IsMaximal(rank, tasks[k], tasks)
  {
    k := 0;
    var i := 1;
    while i < |tasks|
      invariant k < i <= |tasks|
      invariant forall j :: 0 <= j < i ==> rank(tasks[j]) <= rank(tasks[k])
    {
      if rank(tasks[k]) < rank(tasks[i]) {
        k := i;
      }
      i := i + 1;
    }
  }

  /** Removing position `k` of a sequence removes exactly one occurrence of
      its element from the multiset of the sequence. */
  lemma {:induction false} RemoveAtMultiset(s: seq<TaskControlBlock>, k: nat)
    requires k < |s|
    ensures multiset(s[..k] + s[k + 1..]) == multiset(s) - multiset{s[k]}
  {
    assert s == s[..k] + [s[k]] + s[k + 1..];
    assert multiset(s) == multiset(s[..k]) + multiset{s[k]} + multiset(s[k + 1..]);
  }

  class TaskManager {
    /** The task ordering, fixed for the lifetime of the manager. */
    const rank: Rank
    /** The ready heap, in the order the heap keeps it; only its multiset
        of tasks is observable. */
    var readyHeap: seq<TaskControlBlock>
    /** Every task ever added, and every task fetched. */
    ghost var added: multiset<TaskControlBlock>
    ghost var fetched: multiset<TaskControlBlock>

    /** Conservation: the tasks fetched plus the tasks still ready are
        exactly the tasks added. */
    ghost predicate Valid()
      reads this
    {
      multiset(readyHeap) + fetched == added
    }

    /** The ready tasks, as a multiset. */
    ghost function Ready(): multiset<TaskControlBlock>
      reads this
    {
      multiset(readyHeap)
    }

    /** `TaskManager::new`: an empty ready heap. */
    constructor(rank: Rank)
      ensures Valid()
      ensures this.rank == rank
      ensures Ready() == multiset{} && added == multiset{} && fetched == multiset{}
    {
      this.rank := rank;
      readyHeap := [];
      added := multiset{};
      fetched := multiset{};
    }

    /** `TaskManager::add` (and `add_task`): the ready multiset grows by
        exactly `task`. */
    method Add(task: TaskControlBlock)
      requires Valid()
      modifies this
      ensures Valid()
      ensures Ready() == old(Ready()) + multiset{task}
      ensures added == old(added) + multiset{task} && fetched == old(fetched)
    {
      readyHeap := readyHeap + [task];
      added := added + multiset{task};
    }

    /** `TaskManager::fetch` (and `fetch_task`): `None` on an empty heap,
        otherwise one greatest task, removed once from the ready multiset. */
    method Fetch() returns (task: Option<TaskControlBlock>)
      requires Valid()
      modifies this
      ensures Valid()
      ensures added == old(added)
      ensures old(readyHeap) == [] ==> task == None && readyHeap == [] && fetched == old(fetched)
      ensures old(readyHeap) != [] ==>
        && task.Some?
        && task.value in old(Ready())
        && IsMaximal(rank, task.value, old(readyHeap))
        && Ready() == old(Ready()) - multiset{task.value}
        && fetched == old(fetched) + multiset{task.value}
    {
      if readyHeap == [] {
        return None;
      }
      var k := MaxPosition(readyHeap, rank);
      var t := readyHeap[k];
      RemoveAtMultiset(readyHeap, k);
      readyHeap := readyHeap[..k] + readyHeap[k + 1..];
      fetched := fetched + multiset{t};
      task := Some(t);
    }
  }
}
