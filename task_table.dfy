/** The task table of Linux 0.01: the per-process scheduling record and the
    fixed-size table of slots that hold them.  Slot 0 is the idle task. */
module TaskTable {

  /** Capacity of the task table (NR_TASKS of include/linux/sched.h). */
  const NR_TASKS: nat := 64
  /** Timer ticks per second (HZ of include/linux/sched.h). */
  const HZ: nat := 100
  /** Number of signals, and so the length of a task's handler table. */
  const NSIG: nat := 32

  // Signal numbers of include/signal.h.
  const SIGHUP: int := 1
  const SIGINT: int := 2
  const SIGQUIT: int := 3
  const SIGILL: int := 4
  const SIGTRAP: int := 5
  const SIGABRT: int := 6
  const SIGFPE: int := 8
  const SIGKILL: int := 9
  const SIGUSR1: int := 10
  const SIGSEGV: int := 11
  const SIGUSR2: int := 12
  const SIGPIPE: int := 13
  const SIGALRM: int := 14
  const SIGTERM: int := 15
  const SIGCHLD: int := 17

  /** The pending-signal bit of SIGALRM, `1 << (SIGALRM - 1)`. */
  const SIGALRM_MASK: bv32 := 1 << (SIGALRM - 1)

  /** A slot index, the model's `struct task_struct *` into the table. */
  type Slot = i: int | 0 <= i < NR_TASKS

  datatype Option<T> = None | Some(value: T)

  /** TASK_RUNNING (0), TASK_INTERRUPTIBLE, TASK_UNINTERRUPTIBLE, and the two
      states that process management outside the scheduler sets. */
  datatype State = Running | Interruptible | Uninterruptible | Zombie | Stopped

  /** The 108-byte x87 save area in the task's TSS, kept opaque. */
  datatype FpuImage = FpuImage(words: seq<int>)

  /** What `fninit` leaves in the FPU. */
  const FNINIT_IMAGE: FpuImage := FpuImage([])

  /** The fields of `struct task_struct` that the scheduler reads or writes. */
  datatype Task = Task(
    state: State,
    counter: int,        // remaining time slice, in ticks
    priority: int,       // slice granted on every aging pass
    signal: bv32,        // pending signals, bit (n - 1) for signal n
    sigFn: seq<int>,     // handler address per signal (sig_fn[NSIG])
    sigRestorer: int,    // sig_restorer
    alarm: int,          // absolute tick deadline, 0 when disabled
    utime: int,          // ticks spent in user mode
    stime: int,          // ticks spent in kernel mode
    usedMath: bool,      // used_math
    i387: FpuImage       // tss.i387, the saved FPU state
  )

  /** The record invariant the scheduler keeps: no negative slice, a
      positive priority, and a full handler table. */
  predicate TaskOk(t: Task)
  {
    t.counter >= 0 && t.priority > 0 && |t.sigFn| == NSIG
  }

  /** The table invariant: the right size, the idle task present, and every
      occupied slot a well-formed record. */
  predicate TableOk(ts: seq<Option<Task>>)
  {
    |ts| == NR_TASKS && ts[0].Some? &&
    forall i :: 0 <= i < |ts| && ts[i].Some? ==> TaskOk(ts[i].value)
  }

  /** An occupied slot whose task is TASK_RUNNING. */
  predicate Runnable(o: Option<Task>)
  {
    o.Some? && o.value.state == Running
  }

  /** The slice of an occupied slot (0 for an empty one). */
  function Credit(o: Option<Task>): int
  {
    if o.Some? then o.value.counter else 0
  }

  /** Two tables with the same occupied slots. */
  predicate SameSlots(ts: seq<Option<Task>>, us: seq<Option<Task>>)
  {
    |ts| == |us| && forall i :: 0 <= i < |ts| ==> (ts[i].Some? <==> us[i].Some?)
  }

  /** `task[i]->state = s`; an empty slot is left as it is. */
  function SetState(ts: seq<Option<Task>>, i: int, s: State): (r: seq<Option<Task>>)
    ensures SameSlots(ts, r)
    ensures 0 <= i < |ts| && ts[i].Some? ==> r[i] == Some(ts[i].value.(state := s))
    ensures forall j :: 0 <= j < |ts| && j != i ==> r[j] == ts[j]
    ensures TableOk(ts) ==> TableOk(r)
  {
    if 0 <= i < |ts| && ts[i].Some? then ts[i := Some(ts[i].value.(state := s))] else ts
  }

  /** `if (tmp) tmp->state = 0;`: make the referenced task Running. */
  function Release(ts: seq<Option<Task>>, tmp: Option<Slot>): (r: seq<Option<Task>>)
    ensures SameSlots(ts, r)
    ensures TableOk(ts) ==> TableOk(r)
    ensures tmp.Some? && tmp.value < |ts| && ts[tmp.value].Some? ==> Runnable(r[tmp.value])
    ensures forall j :: 0 <= j < |ts| && (tmp.None? || j != tmp.value) ==> r[j] == ts[j]
  {
    match tmp
    case None => ts
    case Some(i) => SetState(ts, i, Running)
  }

  /** Releasing a slot twice is releasing it once. */
  lemma ReleaseIdempotent(ts: seq<Option<Task>>, tmp: Option<Slot>)
    ensures Release(Release(ts, tmp), tmp) == Release(ts, tmp)
  {
  }
}
