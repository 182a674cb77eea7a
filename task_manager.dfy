/**
 * The task manager: the registry of task control blocks, the index of the
 * running task, the scheduling operations that update them in place, the
 * two address-space operations on the current task, and the module-level
 * wrappers the trap and syscall layers call.
 *
 * The context switch is a no-op here: each scheduling method ends after the
 * registry update, where the kernel would switch to the chosen task. The
 * timer is the `now` parameter (microseconds).
 */
module TaskManagement {
  import opened Wrappers
  import opened Config
  import opened AddressSpace
  import opened Scheduler

  class TaskManager {
    /** `num_app`: the number of tasks, fixed at boot. */
    const numApp: nat
    /** `tasks`: one record per statically loaded application, indexed by task id. */
    const tasks: array<Task>
    /** `current_task`: the id of the running task. */
    var current: nat

    ghost predicate Valid()
      reads this, tasks
    {
      tasks.Length == numApp && WellFormed(State())
    }

    /** The registry as a value. */
    ghost function State(): Sched
      reads this, tasks
    {
      Sched(tasks[..], current)
    }

    /** The registry as the lazy initialiser leaves it: the loaded tasks, task 0 current. */
    constructor (initial: seq<Task>)
      requires 0 < |initial|
      requires forall i :: 0 <= i < |initial| ==> Fresh(initial[i])
      ensures Valid() && fresh(tasks)
      ensures numApp == |initial| && State() == Sched(initial, 0)
    {
      numApp := |initial|;
      tasks := new Task[|initial|](i requires 0 <= i < |initial| => initial[i]);
      current := 0;
    }

    /**
     * `run_first_task`: task 0 becomes `Running` and its start time is
     * stamped with `now`; nothing else changes.
     */
    method RunFirstTask(now: nat)
      requires Valid()
      modifies tasks
      ensures Valid()
      ensures State() == RunFirst(old(State()), now)
      ensures tasks[0].status == Running && tasks[0].startedTime == now
      ensures forall i :: 0 < i < tasks.Length ==> tasks[i] == old(tasks[i])
    {
      tasks[0] := tasks[0].(status := Running, startedTime := now);
    }

    /** `mark_current_suspended`: only the current task's status changes, to `Ready`. */
    method MarkCurrentSuspended()
      requires Valid()
      modifies tasks
      ensures Valid()
      ensures State() == MarkCurrent(old(State()), Ready)
      ensures current == old(current) && tasks[current] == old(tasks[current]).(status := Ready)
      ensures forall i :: 0 <= i < tasks.Length && i != current ==> tasks[i] == old(tasks[i])
    {
      tasks[current] := tasks[current].(status := Ready);
    }

    /** `mark_current_exited`: only the current task's status changes, to `Exited`. */
    method MarkCurrentExited()
      requires Valid()
      modifies tasks
      ensures Valid()
      ensures State() == MarkCurrent(old(State()), Exited)
      ensures current == old(current) && tasks[current] == old(tasks[current]).(status := Exited)
      ensures forall i :: 0 <= i < tasks.Length && i != current ==> tasks[i] == old(tasks[i])
    {
      tasks[current] := tasks[current].(status := Exited);
    }

    /**
     * `run_next_task`: the task `FindNextTask` picks becomes `Running` and
     * current, its start time is stamped only if still 0, and no other task
     * changes. `None` is the "all applications completed" halt, with the
     * registry unchanged.
     */
    method RunNextTask(now: nat) returns (next: Option<nat>)
      requires Valid()
      modifies this, tasks
      ensures Valid()
      ensures next == FindNextTask(old(tasks[..]), old(current))
      ensures State() == RunNext(old(State()), now)
      ensures next.None? ==> State() == old(State())
      ensures next.Some? ==> current == next.value && tasks[current].status == Running
      ensures next.Some? ==> old(tasks[next.value].startedTime) != 0 ==>
        tasks[next.value].startedTime == old(tasks[next.value].startedTime)
      ensures forall i :: 0 <= i < tasks.Length && Some(i) != next ==> tasks[i] == old(tasks[i])
    {
      next := FindNextTask(tasks[..], current);
      if next.Some? {
        var id := next.value;
        tasks[id] := tasks[id].(status := Running);
        if tasks[id].startedTime == 0 {
          tasks[id] := tasks[id].(startedTime := now);
        }
        current := id;
      }
    }

    /**
     * `mmap(start, len, port)` on the current task: returns 0 and maps
     * every page of the rounded range with the permission `port` asks for,
     * or returns -1 and changes nothing; other tasks never change.
     */
    method Mmap(start: nat, len: nat, port: bv64) returns (r: int)
      requires Valid()
      modifies tasks
      ensures Valid() && current == old(current)
      ensures var effect := MmapPages(old(tasks[current].pages), start, len, port);
        (r == 0 <==> effect.Some?) && (r == -1 <==> effect.None?) &&
        tasks[..] == if effect.Some? then old(tasks[..])[current := old(tasks[current]).(pages := effect.value)]
                     else old(tasks[..])
    {
      if start % PAGE_SIZE != 0 || PortRejected(port) {
        return -1;
      }
      var permission := PermFromPort(port);
      var startVpn, endVpn := VpnFloor(start), VpnCeil(start + len);
      var cur := current;
      if FindMapped(tasks[cur].pages, startVpn, endVpn).Some? {
        return -1;
      }
      tasks[cur] := tasks[cur].(pages := InsertFramedArea(tasks[cur].pages, startVpn, endVpn, permission));
      r := 0;
    }

    /**
     * `munmap(start, len)` on the current task: returns 0 and unmaps every
     * page of the rounded range, one page at a time, or returns -1 and
     * changes nothing; other tasks never change.
     */
    method Munmap(start: nat, len: nat) returns (r: int)
      requires Valid()
      modifies tasks
      ensures Valid() && current == old(current)
      ensures var effect := MunmapPages(old(tasks[current].pages), start, len);
        (r == 0 <==> effect.Some?) && (r == -1 <==> effect.None?) &&
        tasks[..] == if effect.Some? then old(tasks[..])[current := old(tasks[current]).(pages := effect.value)]
                     else old(tasks[..])
    {
      if start % PAGE_SIZE != 0 {
        return -1;
      }
      var startVpn, endVpn := VpnFloor(start), VpnCeil(start + len);
      var cur := current;
      if FindUnmapped(tasks[cur].pages, startVpn, endVpn).Some? {
        return -1;
      }
      ghost var before := tasks[cur];
      var vpn := startVpn;
      while vpn < endVpn
        invariant startVpn <= vpn <= endVpn
        invariant tasks[cur] == before.(pages := RemoveRange(before.pages, startVpn, vpn))
        invariant forall i :: 0 <= i < tasks.Length && i != cur ==> tasks[i] == old(tasks[i])
      {
        tasks[cur] := tasks[cur].(pages := tasks[cur].pages - {vpn});
        vpn := vpn + 1;
      }
      // The defensive recheck: a page of the range still mapped would give -1.
      RecheckAfterUnmap(before.pages, startVpn, endVpn);
      r := if FindMapped(tasks[cur].pages, startVpn, endVpn).Some? then -1 else 0;
    }
  }

  /** `suspend_current_and_run_next`: mark the current task `Ready`, then run the next one. */
  method SuspendCurrentAndRunNext(tm: TaskManager, now: nat) returns (next: Option<nat>)
    requires tm.Valid()
    modifies tm, tm.tasks
    ensures tm.Valid()
    ensures next == FindNextTask(MarkCurrent(old(tm.State()), Ready).tasks, old(tm.current))
    ensures tm.State() == SuspendStep(old(tm.State()), now)
  {
    tm.MarkCurrentSuspended();
    next := tm.RunNextTask(now);
  }

  /** `exit_current_and_run_next`: mark the current task `Exited`, then run the next one. */
  method ExitCurrentAndRunNext(tm: TaskManager, now: nat) returns (next: Option<nat>)
    requires tm.Valid()
    modifies tm, tm.tasks
    ensures tm.Valid()
    ensures next == FindNextTask(MarkCurrent(old(tm.State()), Exited).tasks, old(tm.current))
    ensures tm.State() == ExitStep(old(tm.State()), now)
  {
    tm.MarkCurrentExited();
    next := tm.RunNextTask(now);
  }

  /**
   * `inc_current_task_syscall_num(id)`: the current task's counter for
   * syscall `id` goes up by one; every other counter and task is unchanged.
   */
  method IncCurrentTaskSyscallNum(tm: TaskManager, id: nat)
    requires tm.Valid() && id < MAX_SYSCALL_NUM
    modifies tm.tasks
    ensures tm.Valid()
    ensures var cur, was := tm.current, old(tm.tasks[tm.current]);
      tm.tasks[cur] == was.(syscallTimes := was.syscallTimes[id := was.syscallTimes[id] + 1])
    ensures forall k :: 0 <= k < MAX_SYSCALL_NUM ==>
      tm.tasks[tm.current].syscallTimes[k] == old(tm.tasks[tm.current].syscallTimes[k]) + (if k == id then 1 else 0)
    ensures forall i :: 0 <= i < tm.tasks.Length && i != tm.current ==> tm.tasks[i] == old(tm.tasks[i])
  {
    var cur := tm.current;
    var times := tm.tasks[cur].syscallTimes;
    tm.tasks[cur] := tm.tasks[cur].(syscallTimes := times[id := times[id] + 1]);
  }

  /** `current_task_syscall_times`: the current task's counters, one per syscall id. */
  method CurrentTaskSyscallTimes(tm: TaskManager) returns (times: seq<nat>)
    requires tm.Valid()
    ensures |times| == MAX_SYSCALL_NUM
    ensures times == tm.tasks[tm.current].syscallTimes
  {
    times := tm.tasks[tm.current].syscallTimes;
  }

  /**
   * `current_task_time`: the whole milliseconds elapsed between the current
   * task's first run and `now`.
   */
  method CurrentTaskTime(tm: TaskManager, now: nat) returns (ms: nat)
    requires tm.Valid() && tm.tasks[tm.current].startedTime <= now
    ensures ms * 1000 <= now - tm.tasks[tm.current].startedTime < (ms + 1) * 1000
  {
    var cur := tm.current;
    ms := (now - tm.tasks[cur].startedTime) / 1000;
  }
}
