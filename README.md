# Task manager of a statically loaded teaching kernel, in Dafny

This project models the task manager of a single-CPU kernel
(`os4/src/task/mod.rs`). It has three parts:

- **The registry.** This is a fixed array of task records plus the index of the running task.
- **The scheduler.** It uses a round-robin policy to pick the next `Ready` task.
  - `mark_current_suspended`, `mark_current_exited`, `run_first_task` and `run_next_task` change task state.
  - `suspend_current_and_run_next` and `exit_current_and_run_next` combine them.
- **`mmap` and `munmap`.** These map and unmap pages in the current task's address space.

The project also covers the syscall counters and the elapsed-time query.

Files and modules:

- `config.dfy` (`Config`): `PAGE_SIZE` (4096) and `MAX_SYSCALL_NUM` (500). The kernel's configuration file is not part of this model, so these are the rCore kernel's values.
- `wrappers.dfy` (`Wrappers`): the `Option` type that the source's `find` calls return.
- `address_space.dfy` (`AddressSpace`): one task's page map is a `map<nat, Perm>`.
  - "`translate(vpn)` gives a valid entry" becomes `vpn in pages`.
  - The module holds `mmap`'s bit test on `port` and the permission it grants.
  - It rounds byte ranges to page ranges.
  - It models the two page-by-page `find` searches as recursive functions.
  - `MmapPages` and `MunmapPages` give the effect of `mmap` and `munmap` as values: `None` is the -1 return, `Some(p)` is the 0 return with new pages `p`.
- `scheduler.dfy` (`Scheduler`): task records, `find_next_task` and the state each scheduling step leaves, all as values. It holds the lemmas on the task state machine and on round-robin fairness.
- `task_manager.dfy` (`TaskManagement`):
  - The class `TaskManager` has `tasks: array<Task>` and `current`. Its methods update them in place, and each method's `ensures` ties the new state to the `Scheduler` or `AddressSpace` function for that operation.
  - `munmap` unmaps page by page in a loop.
  - The module-level wrappers (`suspend_/exit_current_and_run_next`, the syscall counter and the time query) are methods that take the manager.

Abstractions:

- The context switch `__switch` is a no-op. Each scheduling method ends where the kernel would switch.
- The timer `get_time_us` becomes a `now` parameter, in microseconds.
- Addresses and lengths are unbounded `nat`s. `port` is a `bv64`, so the source's bit test is written exactly as it appears.

## Model

| member | source | states |
|---|---|---|
| `Scheduler.RingIsMod` | os4/src/task/mod.rs:119 | The id at position k of the search order (k in 0..n) is the source's `(current + k) % num_app`. |
| `Scheduler.CyclicOffset` | os4/src/task/mod.rs:118-119 | The position of a task in the search order `current+1 … current+n` (mod n) is in 1..n. Visiting that position lands on the task. The current task is last, at position n. |
| `Scheduler.FindReadyFrom` | os4/src/task/mod.rs:118-120 | Search from position k onward. The result is a `Ready` task at position k or later. Every `Ready` task at position k or later is found, and none of them comes before the result. |
| `Scheduler.FindNextTask` | os4/src/task/mod.rs:115-121 | `find_next_task` returns a valid id whose task is `Ready`. No `Ready` task comes earlier in the cyclic order after `current`. It returns `None` exactly when no task is `Ready`. |
| `Scheduler.CurrentCheckedLast` | os4/src/task/mod.rs:118-121 | The current task is chosen again exactly when it is `Ready` and no other task is. |
| `Scheduler.FindNextTaskExample` | os4/src/task/mod.rs:115-121 | With 4 tasks, task 1 current and tasks 0 and 3 the only `Ready` ones, task 3 is chosen, not task 0. |
| `Scheduler.MarkCurrent` | os4/src/task/mod.rs:99-110 | Setting the current task's status keeps the registry well formed. |
| `Scheduler.Dispatch` | os4/src/task/mod.rs:141-146 | Dispatching the chosen task keeps the registry well formed. |
| `Scheduler.RunNext` | os4/src/task/mod.rs:138-158 | `run_next_task` as a value: dispatch the task `FindNextTask` picks, or leave the registry unchanged on the halt. The result is well formed. |
| `Scheduler.SuspendStep` | os4/src/task/mod.rs:258-261 | `suspend_current_and_run_next` as a value keeps the registry well formed. |
| `Scheduler.ExitStep` | os4/src/task/mod.rs:264-267 | `exit_current_and_run_next` as a value keeps the registry well formed. |
| `Scheduler.RunFirst` | os4/src/task/mod.rs:85-87 | `run_first_task` as a value keeps the registry well formed. |
| `Scheduler.RunNextChangesOnlyNext` | os4/src/task/mod.rs:138-146 | With no task `Ready`, the registry is unchanged. Otherwise the chosen task becomes `Running` and current. Its start time is written only if it was 0. Its counters and pages, and every other task, are unchanged. |
| `Scheduler.StepsFollowStateMachine` | os4/src/task/mod.rs:99-146 | From a state where only the current task runs, each half of suspend and exit moves every task along the state machine UnInit→Ready→Running→{Ready, Exited}. So `Exited` is terminal. |
| `Scheduler.RunFirstStartsOne` | os4/src/task/mod.rs:83-87 | At boot (current 0, no task running), `run_first_task` leaves exactly task 0 `Running`, with its start time stamped. |
| `Scheduler.StepsKeepOneRunning` | os4/src/task/mod.rs:257-267 | Suspending never reaches the halt. Suspend always keeps exactly one task `Running`, and it is the current one. Exit does too whenever a task is left to run. |
| `Scheduler.SuspendPicksSuccessor` | os4/src/task/mod.rs:257-261 | When every other task is `Ready`, suspending makes task `current + 1` (mod n) current, and every other task stays `Ready`. |
| `Scheduler.Rounds` | os4/src/task/mod.rs:257-261 | Applies `SuspendStep` once per timestamp and records each new current id. Its contract gives only the length (one id per call). What the ids are is stated by `RoundRobinOrder` and `RoundRobinFair`. |
| `Scheduler.RoundRobinOrder` | os4/src/task/mod.rs:257-261 | Over at most n suspensions with every other task `Ready`, the i-th suspension runs task `current + i + 1` (mod n). |
| `Scheduler.RoundRobinFair` | os4/src/task/mod.rs:257-261 | n such suspensions run each of the n tasks exactly once. |
| `AddressSpace.PortRejected` | os4/src/task/mod.rs:162 | The bit test `port & !0x7 != 0 \|\| port & 0x7 == 0`, written as in the source, rejects exactly the ports outside 1..7. |
| `AddressSpace.PermFromPort` | os4/src/task/mod.rs:165 | The permission `(port << 1) \| U` is always user-accessible. Its read, write and execute flags encode exactly the low three bits of `port`. For an accepted port, at least one of them is set. |
| `AddressSpace.PortRoundTrip` | os4/src/task/mod.rs:165 | Every accepted port can be read back from the permission it grants (bit 0 read, bit 1 write, bit 2 execute, plus user). |
| `AddressSpace.PermRoundTrip` | os4/src/task/mod.rs:165 | Every user permission with at least one of read, write and execute is granted by exactly one accepted port. |
| `AddressSpace.VpnFloor` | os4/src/task/mod.rs:166 | The start page number is the page that contains byte `start`. |
| `AddressSpace.VpnCeil` | os4/src/task/mod.rs:167 | The end page number is the first page that begins at or after byte `start + len`. |
| `AddressSpace.PageRangeExact` | os4/src/task/mod.rs:166-168 | For an aligned `start`, the page range holds exactly the pages whose first byte lies in `[start, start + len)`. |
| `AddressSpace.FindMapped` | os4/src/task/mod.rs:176-181 | Returns the first mapped page of `[lo, hi)`. It returns `None` exactly when every page of the range is unmapped. |
| `AddressSpace.FindUnmapped` | os4/src/task/mod.rs:206-211 | Returns the first unmapped page of `[lo, hi)`. It returns `None` exactly when every page of the range is mapped. |
| `AddressSpace.InsertFramedArea` | os4/src/task/mod.rs:184-185 | `insert_framed_area` maps every page of `[lo, hi)` with the given permission. Every other page keeps its mapping or stays unmapped. |
| `AddressSpace.RemoveRange` | os4/src/task/mod.rs:214-216 | The pages left after the page-by-page unmap of `[lo, hi)` are exactly the pages outside the range, with their permissions unchanged. |
| `AddressSpace.MmapPages` | os4/src/task/mod.rs:160-188 | `mmap` fails, with no change, exactly when `start` is unaligned, `port` is rejected or some page of the range is already mapped. On success, every page of the range is mapped with `port`'s permission plus user. Pages outside the range are unchanged. |
| `AddressSpace.MunmapPages` | os4/src/task/mod.rs:190-225 | `munmap` fails, with no change, exactly when `start` is unaligned or some page of the range is not mapped. On success, the range's pages are removed and nothing else changes. |
| `AddressSpace.RecheckAfterUnmap` | os4/src/task/mod.rs:214-222 | After the pages of a range are unmapped one by one, the recheck finds none of them still mapped, so it never fails. |
| `AddressSpace.MunmapUndoesMmap` | os4/src/task/mod.rs:160-225 | `munmap` over the exact range of a successful `mmap` succeeds and restores the pages to what they were before the `mmap`. |
| `AddressSpace.OverlappingMmapFails` | os4/src/task/mod.rs:176-181 | A second `mmap` whose range shares a page with a successful first one fails, so the first mapping stays intact. |
| `AddressSpace.MmapTwoPagesReadWrite` | os4/src/task/mod.rs:160-188 | `mmap(0x1000, 0x2000, 0b011)` on an empty address space maps exactly pages 1 and 2, readable, writable and user-accessible, not executable. |
| `TaskManagement.TaskManager.constructor` | os4/src/task/mod.rs:56-76 | The registry holds the loaded tasks (all `Ready`, never run, counters zero), with task 0 current. |
| `TaskManagement.TaskManager.RunFirstTask` | os4/src/task/mod.rs:83-96 | Task 0 becomes `Running` and its start time is set to `now`. No other task changes, and neither does `current`. |
| `TaskManagement.TaskManager.MarkCurrentSuspended` | os4/src/task/mod.rs:99-103 | Only the current task's status changes, to `Ready`. `current` and every other task are unchanged. |
| `TaskManagement.TaskManager.MarkCurrentExited` | os4/src/task/mod.rs:106-110 | Only the current task's status changes, to `Exited`. `current` and every other task are unchanged. |
| `TaskManagement.TaskManager.RunNextTask` | os4/src/task/mod.rs:138-158 | Returns `FindNextTask`'s choice and leaves the state `RunNext` gives. The chosen task is `Running` and current, and its start time is kept if it was already set. Every other task is unchanged. `None` (the halt) changes nothing. |
| `TaskManagement.TaskManager.Mmap` | os4/src/task/mod.rs:160-188 | Returns 0 or -1 as `MmapPages` succeeds or fails. The current task's pages become `MmapPages`' result. Other tasks and `current` are unchanged. |
| `TaskManagement.TaskManager.Munmap` | os4/src/task/mod.rs:190-225 | Returns 0 or -1 as `MunmapPages` succeeds or fails. The page-by-page loop leaves the current task's pages equal to `MunmapPages`' result. Other tasks and `current` are unchanged. |
| `TaskManagement.SuspendCurrentAndRunNext` | os4/src/task/mod.rs:258-261 | The new registry is `SuspendStep` of the old one. The result is the task chosen after marking the current one `Ready`. |
| `TaskManagement.ExitCurrentAndRunNext` | os4/src/task/mod.rs:264-267 | The new registry is `ExitStep` of the old one. The result is the task chosen after marking the current one `Exited`. |
| `TaskManagement.IncCurrentTaskSyscallNum` | os4/src/task/mod.rs:308-312 | The current task's counter for syscall `id` goes up by exactly 1. Every other counter and every other task is unchanged. |
| `TaskManagement.CurrentTaskSyscallTimes` | os4/src/task/mod.rs:291-296 | Returns the current task's counters, one per syscall id. |
| `TaskManagement.CurrentTaskTime` | os4/src/task/mod.rs:299-306 | Returns the whole milliseconds elapsed since the current task first ran: `ms * 1000 <= now - started < (ms + 1) * 1000`. |

## Left out

- Context switch: `__switch` and `TaskContext` (register save and restore with non-local control flow) are a no-op. So `run_first_task` returns in the model, and its `panic!("unreachable …")` after the switch is not modelled.
- Locking: `UPSafeCell::exclusive_access` and the explicit `drop(inner)` are not modelled. They are a reentrancy guard, and the model is single-threaded state.
- Boot-time setup: `lazy_static` initialisation through `get_num_app`, `get_app_data` and `TaskControlBlock::new` is program loading. The constructor instead takes the loaded tasks as given.
- Memory-set internals: the internals of `MemorySet`, `PageTable`, `VirtAddr` and `MapPermission` (physical frames, page-table entries, the permission bit layout) are not modelled. High address bits that the page table does not index are not modelled. A task's mapped pages are a map from page number to permission.
- Frame allocation: `insert_framed_area` backs each new page with a physical frame. Running out of frames is not modelled; the insertion always succeeds.
- Token and trap-context getters: `get_current_token`, `get_current_trap_cx`, `current_user_token` and `current_trap_cx` only pass through an opaque token or a raw mutable reference.
- `current_task_status`: a stub that always returns `Running`.
- Forwarding wrappers: `task_mmap`, `task_munmap`, and the wrappers `run_first_task`, `run_next_task`, `mark_current_*` only forward to the singleton. They are the class methods themselves.
- TaskManagement.TaskManager.RunNextTask: the "All applications completed!" panic is modelled as a `None` result that leaves the registry unchanged. Halting the kernel is not modelled.
- TaskManagement.TaskManager.Mmap and TaskManagement.TaskManager.Munmap: addresses are unbounded. A `usize` overflow of `start + len` is not modelled; it would panic or wrap, depending on the build.
- TaskManagement.IncCurrentTaskSyscallNum: requires `id < MAX_SYSCALL_NUM`. For a larger `syscall_id`, the source panics on the array index in `syscall_times[syscall_id] += 1`; the model excludes that case.
- TaskManagement.TaskManager.constructor: requires at least one task. With `num_app == 0` the source builds the registry and then panics on `tasks[0]` in `run_first_task` and on `% self.num_app` in `find_next_task`; the model excludes that case.
- TaskManagement.IncCurrentTaskSyscallNum: counters are unbounded. The `u32` overflow of a counter is not modelled; it would panic or wrap, depending on the build.
- TaskManagement.CurrentTaskTime: requires `now` to be at least the start time. An earlier `now` would underflow the `usize` subtraction in the source.
- Scheduler.RoundRobinOrder: the fairness lemmas cover one full cycle of at most n suspensions. Longer runs repeat that cycle but are not stated.
- Start time of 0: `run_next_task` stamps the start time only when it is 0. If the timer itself reads 0 at a task's first run, that task is stamped again when it next runs. The model keeps this behaviour.
- `munmap` recheck: the source re-checks after unmapping in case the memory set breaks its contract. In the model the memory set always keeps its contract, so the recheck never fails (`RecheckAfterUnmap`).
