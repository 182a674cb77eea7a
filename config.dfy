/**
 * Kernel configuration constants used by the task manager. The kernel's
 * configuration file is not part of this model; the values are those of the
 * rCore teaching kernel this system is built on.
 */
module Config {
  /** Size in bytes of one virtual page (`PAGE_SIZE`). */
  const PAGE_SIZE: nat := 4096

  /** Number of per-task syscall counters (`MAX_SYSCALL_NUM`). */
  const MAX_SYSCALL_NUM: nat := 500
}
