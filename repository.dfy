/**
 * The in-memory task store: a map from task id to task record and the
 * counter that hands out ids. Every operation is one read-modify-write of a
 * single record; the mutex that makes it atomic in the Go store has no
 * counterpart here, since each method runs to completion on its own.
 */
module Repository {
  import opened Outcomes

  datatype Status = Created | Processing | Completed | Failed

  /** One task: the submitted links, the stored files, the failure notes and the archive path. */
  datatype Task = Task(
    id: int,
    status: Status,
    links: seq<string>,
    loadedFiles: seq<string>,
    archivePath: string,
    errors: seq<string>)

  /** The record the store inserts for a freshly allocated id. */
  function NewTask(id: int): Task {
    Task(id, Created, [], [], "", [])
  }

  /** The admission limit on open tasks, and the value the active count saturates at. */
  const ActiveCap := 3

  /** Open (non-terminal) statuses. */
  predicate IsActive(s: Status) {
    s == Created || s == Processing
  }

  /** The ids of the open tasks of a store. */
  function ActiveIds(tasks: map<int, Task>): set<int> {
    set k | k in tasks && IsActive(tasks[k].status)
  }

  /** The open tasks among the ids below `k`: the part of the store a scan in id order has seen. */
  function ActiveBelow(tasks: map<int, Task>, k: int): set<int> {
    set j | j in tasks && j < k && IsActive(tasks[j].status)
  }

  /** `after` is `before` with possibly more links, files and errors appended and nothing removed. */
  ghost predicate TaskGrows(before: Task, after: Task) {
    && after.id == before.id
    && before.links <= after.links
    && before.loadedFiles <= after.loadedFiles
    && before.errors <= after.errors
  }

  /** No task disappears and no task's lists shrink or reorder. */
  ghost predicate StoreGrows(before: map<int, Task>, after: map<int, Task>) {
    && before.Keys <= after.Keys
    && forall k :: k in before ==> TaskGrows(before[k], after[k])
  }

  /** Inserting a new open task under a fresh id adds exactly that id to the open ids. */
  lemma ActiveIdsInsert(tasks: map<int, Task>, id: int, t: Task)
    requires id !in tasks && IsActive(t.status)
    ensures ActiveIds(tasks[id := t]) == ActiveIds(tasks) + {id}
    ensures |ActiveIds(tasks[id := t])| == |ActiveIds(tasks)| + 1
  {
    assert ActiveIds(tasks[id := t]) == ActiveIds(tasks) + {id};
  }

  class TasksRepository {
    var tasks: map<int, Task>
    var ptr: int

    /**
     * The ids in use are exactly 0 .. ptr - 1 and every record carries its own
     * key as its id: so the next id, ptr, is always free.
     */
    ghost predicate Valid()
      reads this
    {
      && 0 <= ptr
      && (forall k :: k in tasks <==> 0 <= k < ptr)
      && (forall k :: k in tasks ==> tasks[k].id == k)
    }

    constructor ()
      ensures Valid()
      ensures tasks == map[] && ptr == 0
    {
      tasks := map[];
      ptr := 0;
    }

    /** Hands out the current counter value as the new id and stores a fresh Created task under it. */
    method CreateTask() returns (r: Result<int>)
      requires Valid()
      modifies this
      ensures Valid()
      ensures old(ptr) !in old(tasks)
      ensures r == Ok(old(ptr)) && ptr == old(ptr) + 1
      ensures tasks == old(tasks)[old(ptr) := NewTask(old(ptr))]
    {
      var id := ptr;
      ptr := ptr + 1;
      if id in tasks {
        return Err(AlreadyExists);
      }
      tasks := tasks[id := NewTask(id)];
      return Ok(id);
    }

    method AppendLink(id: int, link: string) returns (r: Outcome)
      requires Valid()
      modifies this
      ensures Valid() && ptr == old(ptr)
      ensures StoreGrows(old(tasks), tasks)
      ensures id !in old(tasks) ==> r == Fail(NotFound) && tasks == old(tasks)
      ensures id in old(tasks) ==>
        r == Pass && tasks == old(tasks)[id := old(tasks)[id].(links := old(tasks)[id].links + [link])]
    {
      if id !in tasks {
        return Fail(NotFound);
      }
      var task := tasks[id];
      task := task.(links := task.links + [link]);
      tasks := tasks[id := task];
      return Pass;
    }

    method AppendLoadedFileLink(id: int, path: string) returns (r: Outcome)
      requires Valid()
      modifies this
      ensures Valid() && ptr == old(ptr)
      ensures StoreGrows(old(tasks), tasks)
      ensures id !in old(tasks) ==> r == Fail(NotFound) && tasks == old(tasks)
      ensures id in old(tasks) ==>
        r == Pass && tasks == old(tasks)[id := old(tasks)[id].(loadedFiles := old(tasks)[id].loadedFiles + [path])]
    {
      if id !in tasks {
        return Fail(NotFound);
      }
      var task := tasks[id];
      task := task.(loadedFiles := task.loadedFiles + [path]);
      tasks := tasks[id := task];
      return Pass;
    }

    method AppendError(id: int, note: string) returns (r: Outcome)
      requires Valid()
      modifies this
      ensures Valid() && ptr == old(ptr)
      ensures StoreGrows(old(tasks), tasks)
      ensures id !in old(tasks) ==> r == Fail(NotFound) && tasks == old(tasks)
      ensures id in old(tasks) ==>
        r == Pass && tasks == old(tasks)[id := old(tasks)[id].(errors := old(tasks)[id].errors + [note])]
    {
      if id !in tasks {
        return Fail(NotFound);
      }
      var task := tasks[id];
      task := task.(errors := task.errors + [note]);
      tasks := tasks[id := task];
      return Pass;
    }

    method UpdateTaskStatus(id: int, status: Status) returns (r: Outcome)
      requires Valid()
      modifies this
      ensures Valid() && ptr == old(ptr)
      ensures StoreGrows(old(tasks), tasks)
      ensures id !in old(tasks) ==> r == Fail(NotFound) && tasks == old(tasks)
      ensures id in old(tasks) ==>
        r == Pass && tasks == old(tasks)[id := old(tasks)[id].(status := status)]
    {
      if id !in tasks {
        return Fail(NotFound);
      }
      var task := tasks[id];
      task := task.(status := status);
      tasks := tasks[id := task];
      return Pass;
    }

    /** Returns a copy of the stored record; the store is left as it is. */
    method GetTask(id: int) returns (r: Result<Task>)
      ensures id in tasks ==> r == Ok(tasks[id])
      ensures id !in tasks ==> r == Err(NotFound)
    {
      if id !in tasks {
        return Err(NotFound);
      }
      return Ok(tasks[id]);
    }

    /**
     * Counts the open tasks, giving up with the cap as soon as the count
     * exceeds it. The records are visited in increasing id order, which is one
     * of the orders a map range may take; the result does not depend on it.
     */
    method CountActiveTasks() returns (n: int)
      requires Valid()
      ensures n == if |ActiveIds(tasks)| < ActiveCap then |ActiveIds(tasks)| else ActiveCap
    {
      var count := 0;
      for k := 0 to ptr
        invariant count == |ActiveBelow(tasks, k)|
        invariant count <= ActiveCap
      {
        if IsActive(tasks[k].status) {
          assert ActiveBelow(tasks, k + 1) == ActiveBelow(tasks, k) + {k};
          count := count + 1;
        } else {
          assert ActiveBelow(tasks, k + 1) == ActiveBelow(tasks, k);
        }
        if count > ActiveCap {
          var seen := ActiveBelow(tasks, k + 1);
          assert ActiveIds(tasks) == seen + (ActiveIds(tasks) - seen);
          return ActiveCap;
        }
      }
      assert ActiveBelow(tasks, ptr) == ActiveIds(tasks);
      return count;
    }

    method UpdateArchiveName(id: int, archivePath: string) returns (r: Outcome)
      requires Valid()
      modifies this
      ensures Valid() && ptr == old(ptr)
      ensures StoreGrows(old(tasks), tasks)
      ensures id !in old(tasks) ==> r == Fail(NotFound) && tasks == old(tasks)
      ensures id in old(tasks) ==>
        r == Pass && tasks == old(tasks)[id := old(tasks)[id].(archivePath := archivePath)]
    {
      if id !in tasks {
        return Fail(NotFound);
      }
      var task := tasks[id];
      task := task.(archivePath := archivePath);
      tasks := tasks[id := task];
      return Pass;
    }
  }
}
