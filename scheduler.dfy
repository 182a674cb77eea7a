/**
 * Task records and the round-robin scheduling policy of the task manager,
 * as values: `FindNextTask` is `TaskManager::find_next_task`, and the
 * step functions give the state each scheduling operation leaves behind.
 */
module Scheduler {
  import opened Wrappers
  import opened Config
  import opened AddressSpace

  /** `TaskStatus`. */
  datatype TaskStatus = UnInit | Ready | Running | Exited

  /**
   * The parts of a `TaskControlBlock` the task manager reads or writes:
   * scheduling status, first-run timestamp in microseconds (0 = never run),
   * per-syscall counters and the mapped pages of its memory set.
   */
  datatype Task = Task(status: TaskStatus, startedTime: nat, syscallTimes: seq<nat>, pages: Pages)

  /** The registry: the task list and `current_task`. */
  datatype Sched = Sched(tasks: seq<Task>, current: nat)

  /** A task as `TaskControlBlock::new` leaves it: ready, never run, no syscalls counted. */
  predicate Fresh(t: Task)
  {
    t.status == Ready && t.startedTime == 0 && t.syscallTimes == seq(MAX_SYSCALL_NUM, _ => 0)
  }

  /** At least one task, `current_task` indexes one, every counter array has its full size. */
  ghost predicate WellFormed(s: Sched)
  {
    0 < |s.tasks| && s.current < |s.tasks| &&
    forall i :: 0 <= i < |s.tasks| ==> |s.tasks[i].syscallTimes| == MAX_SYSCALL_NUM
  }

  // ---------------------------------------------------------------------------
  // Cyclic search order
  // ---------------------------------------------------------------------------

  /**
   * The id at position `k` (1 <= k <= n) of the search order that starts
   * after `current`, without the modulo.
   */
  function Ring(current: nat, k: nat, n: nat): (id: nat)
    requires current < n && k <= n
    ensures id < n
  {
    if current + k < n then current + k else current + k - n
  }

  /** `Ring` is the source's `(current + k) % n`. */
  lemma RingIsMod(current: nat, k: nat, n: nat)
    requires current < n && k <= n
    ensures Ring(current, k, n) == (current + k) % n
  {
  }

  /**
   * The position of task `id` in the search order `current + 1, …,
   * current + n` (each taken modulo `n`): the current task comes last.
   */
  function CyclicOffset(current: nat, id: nat, n: nat): (d: nat)
    requires current < n && id < n
    ensures 1 <= d <= n
    ensures Ring(current, d, n) == id
    ensures id == current <==> d == n
  {
    if current < id then id - current else id + n - current
  }

  /**
   * The first `Ready` task at positions `k, k + 1, …, n` of the search order
   * starting after `current`: the iterator
   * `(current + 1..current + n + 1).map(|id| id % n).find(..)` from its
   * `k`-th element on.
   */
  function FindReadyFrom(ts: seq<Task>, current: nat, k: nat): (r: Option<nat>)
    requires current < |ts| && 1 <= k
    decreases |ts| + 1 - k
    ensures r.Some? ==> r.value < |ts| && ts[r.value].status == Ready
    ensures r.Some? ==> k <= CyclicOffset(current, r.value, |ts|)
    ensures forall id :: 0 <= id < |ts| && ts[id].status == Ready && k <= CyclicOffset(current, id, |ts|) ==>
      r.Some? && CyclicOffset(current, r.value, |ts|) <= CyclicOffset(current, id, |ts|)
  {
    if k > |ts| then None
    else
      var id := (current + k) % |ts|;
      RingIsMod(current, k, |ts|);
      if ts[id].status == Ready then Some(id)
      else FindReadyFrom(ts, current, k + 1)
  }

  /**
   * `find_next_task`: the first `Ready` task in the cyclic order
   * `current + 1, …, current + n` (mod n). The result is a valid `Ready`
   * id, no `Ready` task comes before it in that order, and there is no
   * result exactly when no task is `Ready`.
   */
  function FindNextTask(ts: seq<Task>, current: nat): (r: Option<nat>)
    requires current < |ts|
    ensures r.Some? ==> r.value < |ts| && ts[r.value].status == Ready
    ensures r.None? <==> forall id :: 0 <= id < |ts| ==> ts[id].status != Ready
    ensures r.Some? ==> forall id :: 0 <= id < |ts| && ts[id].status == Ready ==>
      CyclicOffset(current, r.value, |ts|) <= CyclicOffset(current, id, |ts|)
  {
    FindReadyFrom(ts, current, 1)
  }

  /** The current task is chosen again only when no other task is `Ready`. */
  lemma CurrentCheckedLast(ts: seq<Task>, current: nat)
    requires current < |ts|
    ensures FindNextTask(ts, current) == Some(current) <==>
      ts[current].status == Ready &&
      forall id :: 0 <= id < |ts| && id != current ==> ts[id].status != Ready
  {
  }

  /** With four tasks, task 1 current and tasks 0 and 3 ready, task 3 runs next. */
  lemma FindNextTaskExample(ts: seq<Task>)
    requires |ts| == 4
    requires ts[0].status == Ready && ts[3].status == Ready
    requires ts[1].status != Ready && ts[2].status != Ready
    ensures FindNextTask(ts, 1) == Some(3)
  {
  }

  // ---------------------------------------------------------------------------
  // Scheduling steps
  // ---------------------------------------------------------------------------

  /** `mark_current_suspended` / `mark_current_exited`: set the current task's status. */
  function MarkCurrent(s: Sched, status: TaskStatus): (r: Sched)
    requires WellFormed(s)
    ensures WellFormed(r)
  {
    s.(tasks := s.tasks[s.current := s.tasks[s.current].(status := status)])
  }

  /** Make task `next` running and current, stamping its first-run time if unset. */
  function Dispatch(s: Sched, next: nat, now: nat): (r: Sched)
    requires WellFormed(s) && next < |s.tasks|
    ensures WellFormed(r)
  {
    var t := s.tasks[next];
    var started := if t.startedTime == 0 then now else t.startedTime;
    Sched(s.tasks[next := t.(status := Running, startedTime := started)], next)
  }

  /**
   * `run_next_task` at time `now`: dispatch the task `FindNextTask` picks;
   * with no `Ready` task the kernel halts and the registry stays as it is.
   */
  function RunNext(s: Sched, now: nat): (r: Sched)
    requires WellFormed(s)
    ensures WellFormed(r)
  {
    match FindNextTask(s.tasks, s.current)
    case None => s
    case Some(next) => Dispatch(s, next, now)
  }

  /** `suspend_current_and_run_next`. */
  function SuspendStep(s: Sched, now: nat): (r: Sched)
    requires WellFormed(s)
    ensures WellFormed(r)
  {
    RunNext(MarkCurrent(s, Ready), now)
  }

  /** `exit_current_and_run_next`. */
  function ExitStep(s: Sched, now: nat): (r: Sched)
    requires WellFormed(s)
    ensures WellFormed(r)
  {
    RunNext(MarkCurrent(s, Exited), now)
  }

  /** `run_first_task` at time `now`: task 0 runs, its start time is stamped unconditionally. */
  function RunFirst(s: Sched, now: nat): (r: Sched)
    requires WellFormed(s)
    ensures WellFormed(r)
  {
    s.(tasks := s.tasks[0 := s.tasks[0].(status := Running, startedTime := now)])
  }

  /**
   * `run_next_task` changes only the task it picks: that task becomes
   * `Running` and current, its start time is written only if it was 0, and
   * every other task, every counter and every page map are unchanged.
   */
  lemma RunNextChangesOnlyNext(s: Sched, now: nat)
    requires WellFormed(s)
    ensures var r := RunNext(s, now);
      match FindNextTask(s.tasks, s.current)
      case None => r == s
      case Some(next) =>
        r.current == next && |r.tasks| == |s.tasks| &&
        r.tasks[next].status == Running &&
        r.tasks[next].syscallTimes == s.tasks[next].syscallTimes &&
        r.tasks[next].pages == s.tasks[next].pages &&
        (s.tasks[next].startedTime != 0 ==> r.tasks[next].startedTime == s.tasks[next].startedTime) &&
        (s.tasks[next].startedTime == 0 ==> r.tasks[next].startedTime == now) &&
        forall i :: 0 <= i < |s.tasks| && i != next ==> r.tasks[i] == s.tasks[i]
  {
  }

  // ---------------------------------------------------------------------------
  // The task state machine
  // ---------------------------------------------------------------------------

  /** Exactly one task is `Running`, and it is the current one. */
  ghost predicate OneRunning(s: Sched)
  {
    WellFormed(s) && s.tasks[s.current].status == Running &&
    forall i :: 0 <= i < |s.tasks| && i != s.current ==> s.tasks[i].status != Running
  }

  /** The edges of the task state machine (staying put included). */
  predicate Transition(a: TaskStatus, b: TaskStatus)
  {
    a == b ||
    (a == UnInit && b == Ready) ||
    (a == Ready && b == Running) ||
    (a == Running && (b == Ready || b == Exited))
  }

  /** Every task moves along an edge of the state machine from `s` to `r`. */
  ghost predicate Moves(s: Sched, r: Sched)
  {
    |s.tasks| == |r.tasks| &&
    forall i :: 0 <= i < |s.tasks| ==> Transition(s.tasks[i].status, r.tasks[i].status)
  }

  /**
   * From a state where only the current task runs, each half of the
   * suspend and exit compositions moves every task along a state-machine
   * edge, so `Exited` is terminal and a running task becomes `Ready` or
   * `Exited` before it can run again.
   */
  lemma StepsFollowStateMachine(s: Sched, now: nat)
    requires OneRunning(s)
    ensures Moves(s, MarkCurrent(s, Ready)) && Moves(MarkCurrent(s, Ready), SuspendStep(s, now))
    ensures Moves(s, MarkCurrent(s, Exited)) && Moves(MarkCurrent(s, Exited), ExitStep(s, now))
  {
  }

  /**
   * `run_first_task` at boot (current task 0, nothing running yet) leaves
   * exactly task 0 running.
   */
  lemma RunFirstStartsOne(s: Sched, now: nat)
    requires WellFormed(s) && s.current == 0
    requires forall i :: 0 <= i < |s.tasks| ==> s.tasks[i].status != Running
    ensures OneRunning(RunFirst(s, now))
    ensures RunFirst(s, now).tasks[0].startedTime == now
  {
  }

  /**
   * Suspending never halts, and both compositions keep exactly one task
   * running whenever they find a task to run.
   */
  lemma StepsKeepOneRunning(s: Sched, now: nat)
    requires OneRunning(s)
    ensures FindNextTask(MarkCurrent(s, Ready).tasks, s.current).Some?
    ensures OneRunning(SuspendStep(s, now))
    ensures FindNextTask(MarkCurrent(s, Exited).tasks, s.current).Some? ==> OneRunning(ExitStep(s, now))
  {
    var m := MarkCurrent(s, Ready);
    assert m.tasks[s.current].status == Ready;
    RunNextChangesOnlyNext(m, now);
    RunNextChangesOnlyNext(MarkCurrent(s, Exited), now);
  }

  // ---------------------------------------------------------------------------
  // Round-robin fairness
  // ---------------------------------------------------------------------------

  /** The current task runs and every other task is `Ready`. */
  ghost predicate OthersReady(s: Sched)
  {
    OneRunning(s) && forall i :: 0 <= i < |s.tasks| && i != s.current ==> s.tasks[i].status == Ready
  }

  /** With every other task ready, suspending hands the CPU to the next id. */
  lemma SuspendPicksSuccessor(s: Sched, now: nat)
    requires OthersReady(s)
    ensures SuspendStep(s, now).current == Ring(s.current, 1, |s.tasks|)
    ensures OthersReady(SuspendStep(s, now))
  {
    var n, c := |s.tasks|, s.current;
    var m := MarkCurrent(s, Ready);
    assert m.tasks[Ring(c, 1, n)].status == Ready;
    var r := FindNextTask(m.tasks, c);
    assert CyclicOffset(c, r.value, n) == 1;
    RunNextChangesOnlyNext(m, now);
  }

  /** The ids made current by successive `suspend_current_and_run_next` calls at `times`. */
  function Rounds(s: Sched, times: seq<nat>): (ids: seq<nat>)
    requires WellFormed(s)
    decreases |times|
    ensures |ids| == |times|
  {
    if times == [] then []
    else
      var next := SuspendStep(s, times[0]);
      [next.current] + Rounds(next, times[1..])
  }

  /**
   * Prepending the successor of `c` to a run of ids that counts on from that
   * successor gives a run that counts on from `c`.
   */
  lemma SuccessorShift(c: nat, n: nat, rest: seq<nat>, ids: seq<nat>)
    requires c < n && |rest| < n
    requires forall j :: 0 <= j < |rest| ==> rest[j] == Ring(Ring(c, 1, n), j + 1, n)
    requires ids == [Ring(c, 1, n)] + rest
    ensures forall i :: 0 <= i < |ids| ==> ids[i] == Ring(c, i + 1, n)
  {
  }

  /** Over at most one full cycle, the i-th suspension runs task `current + i + 1` (mod n). */
  lemma {:induction false} RoundRobinOrder(s: Sched, times: seq<nat>)
    requires OthersReady(s) && |times| <= |s.tasks|
    decreases |times|
    ensures forall i :: 0 <= i < |times| ==> Rounds(s, times)[i] == Ring(s.current, i + 1, |s.tasks|)
  {
    if times != [] {
      var next := SuspendStep(s, times[0]);
      SuspendPicksSuccessor(s, times[0]);
      RoundRobinOrder(next, times[1..]);
      assert Rounds(s, times) == [next.current] + Rounds(next, times[1..]);
      SuccessorShift(s.current, |s.tasks|, Rounds(next, times[1..]), Rounds(s, times));
    }
  }

  /**
   * Round-robin fairness: with every other task ready, `n` successive
   * suspensions run each of the `n` tasks exactly once.
   */
  lemma RoundRobinFair(s: Sched, times: seq<nat>)
    requires OthersReady(s) && |times| == |s.tasks|
    ensures forall id :: 0 <= id < |s.tasks| ==> id in Rounds(s, times)
    ensures forall i, j :: 0 <= i < j < |times| ==> Rounds(s, times)[i] != Rounds(s, times)[j]
  {
    var n, c := |s.tasks|, s.current;
    var ids := Rounds(s, times);
    RoundRobinOrder(s, times);
    forall id | 0 <= id < n ensures id in ids {
      var d := CyclicOffset(c, id, n);
      assert ids[d - 1] == id;
    }
  }
}
