/**
 * The per-key mutexes of one process (src/cluster/lock.rs): a map from keys to
 * reference-counted mutexes, pruned of unreferenced entries once it is large.
 *
 * A task first takes a reference to the mutex of its key (`Enter`), then locks it
 * when it is free (`Lock`), and gives the reference up when its guard is dropped or
 * its wait is cancelled (`Leave`). Tasks may run these steps in any order.
 */
module LocalKeyLocks {
  /** Entries above which an acquire prunes. */
  const PRUNE_ABOVE: nat := 1024

  type TaskId = nat
  type MutexId = nat

  /** A task's reference to a mutex. */
  datatype Handle = Handle(key: string, mutex: MutexId)

  /** The tasks holding a reference to `m`. */
  function Users(handles: map<TaskId, Handle>, m: MutexId): set<TaskId> {
    set t | t in handles && handles[t].mutex == m
  }

  lemma UsersAdded(handles: map<TaskId, Handle>, task: TaskId, h: Handle, m: MutexId)
    requires task !in handles
    ensures |Users(handles[task := h], m)| == |Users(handles, m)| + if h.mutex == m then 1 else 0
  {
    var after := Users(handles[task := h], m);
    assert after == if h.mutex == m then Users(handles, m) + {task} else Users(handles, m);
  }

  lemma UsersRemoved(handles: map<TaskId, Handle>, task: TaskId, m: MutexId)
    requires task in handles
    ensures |Users(handles - {task}, m)| == |Users(handles, m)| - if handles[task].mutex == m then 1 else 0
  {
    var before := Users(handles, m);
    var after := Users(handles - {task}, m);
    assert after == before - {task};
    assert handles[task].mutex == m <==> task in before;
  }

  /** Distinct keys have distinct mutexes, all made before `next`. */
  ghost predicate Separate(table: map<string, MutexId>, next: MutexId) {
    && (forall k :: k in table ==> table[k] < next)
    && (forall j, k :: j in table && k in table && table[j] == table[k] ==> j == k)
  }

  /** Every reference in use is to the mutex the map has for its key. */
  ghost predicate Linked(table: map<string, MutexId>, handles: map<TaskId, Handle>) {
    forall t :: t in handles ==> handles[t].key in table && table[handles[t].key] == handles[t].mutex
  }

  /** A mutex of the map is counted once for the map and once for every task that refers to it. */
  ghost predicate Counted(table: map<string, MutexId>, strong: map<MutexId, nat>, handles: map<TaskId, Handle>) {
    forall k :: k in table ==> table[k] in strong && strong[table[k]] == 1 + |Users(handles, table[k])|
  }

  ghost predicate Owned(lockedBy: map<MutexId, TaskId>, handles: map<TaskId, Handle>) {
    forall m :: m in lockedBy ==> lockedBy[m] in handles && handles[lockedBy[m]].mutex == m
  }

  ghost predicate Consistent(table: map<string, MutexId>, strong: map<MutexId, nat>, lockedBy: map<MutexId, TaskId>,
                             handles: map<TaskId, Handle>, next: MutexId) {
    Separate(table, next) && Linked(table, handles) && Counted(table, strong, handles) && Owned(lockedBy, handles)
  }

  /** A new mutex nobody refers to yet. */
  lemma NewMutex(table: map<string, MutexId>, strong: map<MutexId, nat>, lockedBy: map<MutexId, TaskId>,
                 handles: map<TaskId, Handle>, next: MutexId, key: string)
    requires Consistent(table, strong, lockedBy, handles, next) && key !in table
    ensures Consistent(table[key := next], strong[next := 1], lockedBy, handles, next + 1)
  {
    forall t | t in handles ensures handles[t].mutex != next {
      assert table[handles[t].key] == handles[t].mutex;
    }
    assert Users(handles, next) == {};
    assert forall k :: k in table ==> table[k] != next;
  }

  /** One more task refers to the mutex of `key`. */
  lemma NewReference(table: map<string, MutexId>, strong: map<MutexId, nat>, lockedBy: map<MutexId, TaskId>,
                     handles: map<TaskId, Handle>, next: MutexId, task: TaskId, key: string)
    requires Consistent(table, strong, lockedBy, handles, next) && key in table && task !in handles
    ensures table[key] in strong
    ensures Consistent(table, strong[table[key] := strong[table[key]] + 1], lockedBy,
                       handles[task := Handle(key, table[key])], next)
  {
    var m := table[key];
    forall k | k in table
      ensures |Users(handles[task := Handle(key, m)], table[k])| == |Users(handles, table[k])| + if m == table[k] then 1 else 0
    {
      UsersAdded(handles, task, Handle(key, m), table[k]);
    }
  }

  /** The locks after `task` gave up whatever it held on `m`. */
  function Unlocked(lockedBy: map<MutexId, TaskId>, m: MutexId, task: TaskId): map<MutexId, TaskId> {
    if m in lockedBy && lockedBy[m] == task then lockedBy - {m} else lockedBy
  }

  /** A task gives up its reference, and its lock if it holds one. */
  lemma LostReference(table: map<string, MutexId>, strong: map<MutexId, nat>, lockedBy: map<MutexId, TaskId>,
                      handles: map<TaskId, Handle>, next: MutexId, task: TaskId)
    requires Consistent(table, strong, lockedBy, handles, next) && task in handles
    ensures var m := handles[task].mutex;
            m in strong && strong[m] > 0
            && Consistent(table, strong[m := strong[m] - 1], Unlocked(lockedBy, m, task), handles - {task}, next)
  {
    var m := handles[task].mutex;
    assert table[handles[task].key] == m;
    assert task in Users(handles, m);
    forall k | k in table
      ensures |Users(handles - {task}, table[k])| == |Users(handles, table[k])| - if m == table[k] then 1 else 0
    {
      UsersRemoved(handles, task, table[k]);
    }
  }

  /** Whether `task` is inside the critical section of `key`. */
  predicate HoldsIn(handles: map<TaskId, Handle>, lockedBy: map<MutexId, TaskId>, task: TaskId, key: string) {
    task in handles && handles[task].key == key
    && handles[task].mutex in lockedBy && lockedBy[handles[task].mutex] == task
  }

  /** Who leaves takes nobody's lock along but its own. */
  lemma LeavesOthers(handles: map<TaskId, Handle>, lockedBy: map<MutexId, TaskId>, task: TaskId)
    requires task in handles
    ensures var left, locks := handles - {task}, Unlocked(lockedBy, handles[task].mutex, task);
            forall t, k :: HoldsIn(left, locks, t, k) <==> t != task && HoldsIn(handles, lockedBy, t, k)
  {
  }

  class LocalKeyLocks {
    /** The map of the source: key to its current mutex. */
    var table: map<string, MutexId>
    /** Strong reference counts of the live mutexes. */
    var strong: map<MutexId, nat>
    /** Locked mutexes and the task holding each. */
    var lockedBy: map<MutexId, TaskId>
    /** References held by tasks, waiting or holding. */
    var handles: map<TaskId, Handle>
    /** The next unused mutex. */
    var next: MutexId

    ghost predicate Valid()
      reads this
    {
      Consistent(table, strong, lockedBy, handles, next)
    }

    /** Whether `task` is inside the critical section of `key`. */
    predicate Holds(task: TaskId, key: string)
      reads this
    {
      HoldsIn(handles, lockedBy, task, key)
    }

    constructor ()
      ensures Valid() && handles == map[]
    {
      table, strong, lockedBy, handles, next := map[], map[], map[], map[], 0;
    }

    /** Drop every entry that nobody but the map refers to. */
    method Prune()
      requires Valid()
      modifies this`table, this`strong
      ensures Valid()
      ensures forall k :: k in old(table) && Users(handles, old(table)[k]) != {} ==> k in table && table[k] == old(table)[k]
      ensures forall k :: k in table ==> k in old(table) && table[k] == old(table)[k] && Users(handles, table[k]) != {}
    {
      ghost var before := table;
      forall t | t in handles ensures t in Users(handles, handles[t].mutex) {}
      table := map k | k in table && strong[table[k]] > 1 :: table[k];
      strong := map m | m in strong && strong[m] > 1 :: strong[m];
      forall t | t in handles ensures handles[t].key in table {
        assert t in Users(handles, handles[t].mutex);
        assert before[handles[t].key] == handles[t].mutex;
      }
    }

    /** The synchronous part of acquire: prune if large, find or make the mutex of `key`, take a reference to it. */
    method Enter(task: TaskId, key: string)
      requires Valid() && task !in handles
      modifies this`table, this`strong, this`handles, this`next
      ensures Valid()
      ensures key in table && handles == old(handles)[task := Handle(key, table[key])]
      ensures forall t, k :: t != task ==> (Holds(t, k) <==> old(Holds(t, k)))
    {
      if |table| > PRUNE_ABOVE {
        Prune();
      }
      var entries, counts, unused := table, strong, next;
      if key !in entries {
        NewMutex(entries, counts, lockedBy, handles, unused, key);
        entries, counts, unused := entries[key := unused], counts[unused := 1], unused + 1;
      }
      var m := entries[key];
      NewReference(entries, counts, lockedBy, handles, unused, task, key);
      table, next, strong, handles := entries, unused, counts[m := counts[m] + 1], handles[task := Handle(key, m)];
    }

    /** The awaited part of acquire: lock the mutex the task refers to, when nobody holds it. */
    method Lock(task: TaskId) returns (ok: bool)
      requires Valid() && task in handles
      modifies this`lockedBy
      ensures Valid()
      ensures ok <==> handles[task].mutex !in old(lockedBy)
      ensures lockedBy == if ok then old(lockedBy)[handles[task].mutex := task] else old(lockedBy)
      ensures ok <==> !exists t :: old(Holds(t, handles[task].key))
      ensures forall t, k :: Holds(t, k) <==> old(Holds(t, k)) || (ok && t == task && k == handles[task].key)
    {
      WaitsForHolder(task);
      var m := handles[task].mutex;
      ok := m !in lockedBy;
      if ok {
        lockedBy := lockedBy[m := task];
      }
    }

    /** Drop a guard, or cancel a wait. */
    method Leave(task: TaskId)
      requires Valid() && task in handles
      modifies this`strong, this`lockedBy, this`handles
      ensures Valid()
      ensures handles == old(handles) - {task}
      ensures lockedBy == Unlocked(old(lockedBy), old(handles)[task].mutex, task)
      ensures forall t, k :: Holds(t, k) <==> t != task && old(Holds(t, k))
      ensures old(Holds(task, handles[task].key)) ==> old(handles)[task].mutex !in lockedBy
    {
      var m := handles[task].mutex;
      LostReference(table, strong, lockedBy, handles, next, task);
      LeavesOthers(handles, lockedBy, task);
      hide Consistent, HoldsIn;
      lockedBy, handles, strong := Unlocked(lockedBy, m, task), handles - {task}, strong[m := strong[m] - 1];
    }

    /** At most one task is in the critical section of a key, whatever was pruned on the way. */
    lemma AtMostOneHolder(a: TaskId, b: TaskId, key: string)
      requires Valid() && Holds(a, key) && Holds(b, key)
      ensures a == b
    {
    }

    /** A task that waits for a key waits for the very mutex every other task of that key refers to, so it can enter as soon as no task holds the key. */
    lemma WaitsForHolder(task: TaskId)
      requires Valid() && task in handles
      ensures handles[task].mutex in lockedBy <==> exists t :: t in handles && Holds(t, handles[task].key)
    {
      var h := handles[task];
      if h.mutex in lockedBy {
        var t := lockedBy[h.mutex];
        assert handles[t].mutex == h.mutex;
        assert table[handles[t].key] == table[h.key];
        assert Holds(t, h.key);
      }
    }
  }
}
