# Linux 0.01 scheduler core in Dafny

This project models `kernel/sched.c` of Linux 0.01, the scheduling and
synchronisation core of a single-CPU kernel. It covers:

- `schedule()`: the signal sweep, the scan for the runnable task with the
  largest remaining slice, and the aging pass;
- the wait channels `sleep_on`, `interruptible_sleep_on` and `wake_up`;
- the timer tick `do_timer`;
- the lazy FPU hand-off `math_state_restore`;
- the system calls `sys_pause`, `sys_alarm`, `sys_nice` and `sys_signal`.

Layout:

- `task_table.dfy` (module `TaskTable`): the task record, the task table
  invariant, and the two state updates the wait primitives use (`SetState`,
  `Release`).
- `sched_policy.dfy` (module `SchedPolicy`): the policy as functions on the
  table, with its lemmas. It has the sweep (`SweepSlot`, `SweepTable`), aging
  (`AgeSlot`, `AgeTable`), the choice of the next task (`Selects`), the table
  schedule() leaves (`Scheduled`), tick accounting (`ChargeTick`,
  `Preempts`), the system-call values, and the FPU save (`SaveFpu`).
- `wait_chain.dfy` (module `WaitChain`): the implicit chain of sleepers on
  one channel. `Push` is one sleeper's update of the channel cell, `Sleeps`
  a run of them, and `Saved` the `tmp` each sleeper holds, which `Unwind`
  releases; the lemmas prove that successive sleeps build that chain and
  that its sleepers are released in LIFO order.
- `sched.dfy` (module `Sched`): class `Kernel`, whose fields are the globals
  `task[]`, `current`, `last_task_used_math`, `jiffies` and the live FPU
  state. Its methods are the functions of the file, each proved against
  `SchedPolicy`. Class `Channel` is a wait-channel cell.

The model keeps these conventions:

- A `task_struct *` is a slot index (`Slot`). A NULL slot is `None`.
- A channel is a `Channel` object whose `head` is the `task_struct *` it
  holds. A null `Channel?` is a null `task_struct **`.
- `switch_to(next)` is `current := next`.
- Each sleep is split at its call to `schedule()`. The block step returns
  the frame's `tmp`. The resume step takes `tmp` back and is run once the
  sleeper is current again.
- The `panic` for task 0 trying to sleep is the precondition `current != 0`.
  It is checked only for a non-null channel, as in the code.
- `Kernel.Valid()` says the following:
  - the table has NR_TASKS slots and slot 0 is occupied;
  - every occupied slot has `counter >= 0`, `priority > 0` and a handler
    table of NSIG entries (`|sigFn| == NSIG`);
  - `current` and the FPU owner are occupied slots;
  - `jiffies >= 0`.

  The positive priority is what bounds schedule() to at most one aging pass.

Constants that come from headers not part of this model use Linux 0.01's
values:

- `NR_TASKS` = 64, `HZ` = 100, and 32 signals;
- SIGHUP 1, SIGINT 2, SIGQUIT 3, SIGILL 4, SIGTRAP 5, SIGABRT 6, SIGFPE 8,
  SIGKILL 9, SIGUSR1 10, SIGSEGV 11, SIGUSR2 12, SIGPIPE 13, SIGALRM 14,
  SIGTERM 15, SIGCHLD 17.

The proofs rely on `NR_TASKS > 1`, on `HZ > 0`, on every signal
number sys_signal accepts lying in 1..NSIG, and on SIGALRM lying in 1..32 (the
SIGALRM pending bit is derived from it).

Behaviour of the code worth stating plainly:

- **Ties.** The scan runs from slot NR_TASKS-1 down to 1 and replaces the
  best candidate only on a strictly larger counter, so of two runnable tasks
  with equal counters the HIGHER slot wins the tie (`Selects`,
  `TieGoesToHigherSlot`).
- **Alarms.** An alarm fires when `alarm < jiffies`, strictly. A sweep at
  the tick equal to the deadline does not fire it; it fires at the first
  sweep, which runs only inside schedule(), after `jiffies` has passed the
  deadline (`AlarmWakesInterruptibleSleeper`).
- **States.** A task's state can also be TASK_ZOMBIE or TASK_STOPPED, which
  code outside this file sets. The scheduler treats them as not runnable, and
  the sweep does not wake them.

## Model

| member | source | states |
|---|---|---|
| `TaskTable.SetState` | kernel/sched.c:130 | `task[i]->state = s` changes only that slot's state and keeps the table invariant |
| `TaskTable.Release` | kernel/sched.c:132-133 | `if (tmp) tmp->state=0` makes the saved task runnable; no other slot changes |
| `TaskTable.ReleaseIdempotent` | kernel/sched.c:132-133 | releasing a task that is already released changes nothing, as when a sleeper's `tmp` was made runnable earlier in the cascade, by wake_up or by the `(**p).state=0` of interruptible_sleep_on |
| `SchedPolicy.RaiseSigalrm` | kernel/sched.c:83 | setting the SIGALRM bit makes it pending and leaves every other pending signal as it was |
| `SchedPolicy.SweepSlot` | kernel/sched.c:81-88 | an alarm with `alarm != 0 && alarm < jiffies` raises SIGALRM and is disarmed, and otherwise alarm and signals are untouched; the state becomes Running exactly when the task was Interruptible and has a pending signal; no other field changes; the record invariant is kept |
| `SchedPolicy.SweepTable` | kernel/sched.c:80-88 | the sweep leaves slot 0 and the set of occupied slots alone, applies the per-task rule to every other slot, and changes states only from Interruptible to Running |
| `SchedPolicy.AlarmWakesInterruptibleSleeper` | kernel/sched.c:82-87 | an Interruptible task with alarm 5 is untouched by the sweep at tick 5 and is Running with only SIGALRM pending after the sweep at tick 6 |
| `SchedPolicy.AgeSlot` | kernel/sched.c:106-107 | aging changes only the counter; it keeps the record invariant and gives a counter of at least the priority; a counter below twice the priority stays below it |
| `SchedPolicy.AgeTable` | kernel/sched.c:104-107 | aging updates every occupied slot 1..NR_TASKS-1, runnable or not, leaves slot 0 and the empty slots alone, and keeps the table invariant |
| `SchedPolicy.Scheduled` | kernel/sched.c:80-109 | the table schedule() leaves has the same occupied slots, the same slot 0, and the table invariant; the only state change is Interruptible to Running |
| `SchedPolicy.SelectsUnique` | kernel/sched.c:92-102 | the choice of the scan is deterministic: at most one slot satisfies it |
| `SchedPolicy.TieGoesToHigherSlot` | kernel/sched.c:97-101 | of two runnable tasks with equal counters, the lower slot is never chosen, and the idle task is not chosen either |
| `SchedPolicy.AgingRestoresCredit` | kernel/sched.c:103-109 | after one aging pass on a table whose runnable tasks all have counter 0, every occupied slot 1..NR_TASKS-1 has a positive counter, so the table no longer needs aging and the scan chooses a non-idle task with a positive counter |
| `SchedPolicy.ChargeTick` | kernel/sched.c:168-174 | a tick adds one to utime when cpl != 0 and to stime otherwise; the counter goes down by one but never below 0; nothing else changes |
| `SchedPolicy.TickExamples` | kernel/sched.c:168-177 | counter 2 in user mode goes to 1 with no reschedule; counter 1 in user mode goes to 0 and reschedules; counter 1 in kernel mode goes to 0 with no reschedule |
| `SchedPolicy.AlarmDeadline` | kernel/sched.c:182 | the alarm is disabled (0) exactly when seconds <= 0; otherwise it lies that many whole seconds of HZ ticks after now |
| `SchedPolicy.NicePriority` | kernel/sched.c:218-219 | the priority drops by the increment exactly when the result is positive, and otherwise stays; a positive priority stays positive |
| `SchedPolicy.Catchable` | kernel/sched.c:227-236 | every signal sys_signal accepts lies in 1..32, so `sig_fn[signal-1]` is in range; SIGKILL and SIGTERM are not accepted |
| `SchedPolicy.SaveFpu` | kernel/sched.c:47-48 | `fnsave` stores the live FPU state in the previous owner's record, and only there |
| `WaitChain.SleepsSaveChain` | kernel/sched.c:128-129 | when sleepers block one after another on a channel with no wake_up between them, each applying `tmp = *p; *p = current` (`Push`, which `SleepOnBlock` and `InterruptibleSleepOnBlock` are proved to perform), the head ends as the newest sleeper and the j-th sleeper's `tmp` is `Saved`: the sleeper that blocked just before it, or the earlier head for the oldest |
| `WaitChain.Unwind` | kernel/sched.c:132-133 | the resumes of a chain of sleepers keep the occupied slots |
| `WaitChain.UnwindReleasesSaved` | kernel/sched.c:128-133 | after the newest sleepers ws[k..] resume, exactly the ones they displaced (ws[k-1 ..] and the earlier head when k is 0) are runnable, and every other slot is unchanged |
| `WaitChain.LifoRelease` | kernel/sched.c:120-163 | with sleepers blocked uninterruptibly on one channel, one wake_up followed by the resumes of the newest sleepers leaves runnable exactly a suffix of the arrival order: release is in strict reverse order of arrival |
| `Sched.Kernel.constructor` | kernel/sched.c:29-33 | boot state: only the idle task in slot 0, which is current; no FPU owner; jiffies is 0 |
| `Sched.Kernel.SweepTask` | kernel/sched.c:81-88 | the sweep's body for one occupied slot computes `SweepSlot` |
| `Sched.Kernel.SweepSignals` | kernel/sched.c:80-88 | the loop over slots NR_TASKS-1 down to 1 leaves the table equal to `SweepTable` of the old table at the current jiffies |
| `Sched.Kernel.Scan` | kernel/sched.c:92-102 | the downward scan with sentinel c = -1 and next = 0 returns the slot `Selects` describes. That is 0 when no slot 1..NR_TASKS-1 is runnable; otherwise the runnable slot with the largest counter, the highest one on ties. It returns c = -1 or that slot's counter |
| `Sched.Kernel.AgeCounters` | kernel/sched.c:104-107 | the aging loop leaves the table equal to `AgeTable` of the old table |
| `Sched.Kernel.Schedule` | kernel/sched.c:73-111 | schedule() terminates, with at most one aging pass; it leaves the table `Scheduled` describes and makes current the slot `Selects` names in it, which has a positive counter unless it is the idle task |
| `Sched.Kernel.Block` | kernel/sched.c:146-147 | setting the caller's state and calling schedule() gives `Scheduled` of the table with that state changed, and the chosen task is the one `Selects` names |
| `Sched.Kernel.SysPause` | kernel/sched.c:113-118 | sys_pause makes the caller Interruptible, reschedules, and returns 0 |
| `Sched.Kernel.SleepOnBlock` | kernel/sched.c:120-131 | a null channel changes nothing. Otherwise the channel cell and `tmp` change as `Push` says (the old head is returned as `tmp`, the head becomes the caller), the caller becomes Uninterruptible, and schedule() runs |
| `Sched.Kernel.SleepOnResume` | kernel/sched.c:132-133 | on resume, the saved previous head, if any, is made Running, and nothing else changes |
| `Sched.Kernel.InterruptibleSleepOnBlock` | kernel/sched.c:136-147 | as `SleepOnBlock`, but the caller becomes Interruptible |
| `Sched.Kernel.InterruptibleSleepOnResume` | kernel/sched.c:148-154 | if the head is another task, that task is made Running and the caller blocks again. Otherwise the channel is emptied and the saved previous head is made Running |
| `Sched.Kernel.WakeUp` | kernel/sched.c:157-163 | on a non-empty channel, the head is made Running and the channel is emptied; a null or empty channel changes nothing |
| `Sched.Kernel.DoTimer` | kernel/sched.c:165-178 | the tick is charged by `ChargeTick`; schedule() runs exactly when the tick came from user mode and the decremented counter is not positive; otherwise current stays |
| `Sched.Kernel.MathStateRestore` | kernel/sched.c:45-56 | the live FPU state is saved into the previous owner. Then current's saved state is loaded if it has used the FPU; otherwise the FPU is reset and used_math is set. Afterwards current is the owner with used_math set |
| `Sched.Kernel.SysAlarm` | kernel/sched.c:180-184 | only current's alarm changes, and it becomes `AlarmDeadline(jiffies, seconds)`; the call returns seconds |
| `Sched.Kernel.SysNice` | kernel/sched.c:216-221 | only current's priority changes, and it becomes `NicePriority`; the call returns 0 |
| `Sched.Kernel.SysSignal` | kernel/sched.c:223-238 | an unlisted signal returns -1 and changes nothing. A listed one returns the old handler and installs `addr` and `restorer` in current's record, changing nothing else |

## Left out

- `sched_init` (kernel/sched.c:240-263): descriptor tables, programming the 8253 timer and installing the interrupt gates are hardware bring-up. Only its clearing of slots 1..NR_TASKS-1 appears, in the boot state of the constructor.
- `sys_getpid` … `sys_getegid` (kernel/sched.c:186-214): plain field reads. Their fields (pid, father, uid, euid, gid, egid) are not in the task record.
- `switch_to`, `fnsave`, `frstor` and `fninit` are inline assembly. They become `current := next` and copies to or from an opaque FPU value. The real register, stack and x87 semantics are not modelled.
- Suspension inside schedule() is not modelled. A sleeper's code after schedule() is a separate resume method, run when the sleeper is current again. The model does not check that it is current.
- The timer interrupt that advances `jiffies` lives outside this file. `jiffies` is a field the environment may advance; no method changes it. Its 32-bit wrap to a negative value after 2^31 ticks is not modelled: `Kernel.Valid()` keeps `jiffies >= 0` and `SchedPolicy.AlarmDeadline` requires `now >= 0`, so the wrapped state, in which `jiffies + HZ*seconds` can even be 0 and silently disable the alarm, is excluded.
- Task records are values in an array of slots, and a `task_struct *` is a slot index. Aliasing between task pointers is not modelled. A resume or wake_up through a pointer to a slot that was freed meanwhile is excluded by precondition, not modelled. Likewise `Kernel.Valid()` requires the FPU owner's slot to stay occupied, so math_state_restore's `fnsave` through a `last_task_used_math` whose slot was freed is not modelled.
- `SchedPolicy.AgeSlot`: does not model 32-bit overflow of `(counter >> 1) + priority`, and neither does `Sched.Kernel.AgeCounters`. With a priority near 2^30, which sys_nice with a large negative increment can set, a task that stays blocked through many aging passes would see its counter pass 2^31 - 1 and wrap negative in C; here counters are unbounded, so `counter >= 0` in the record invariant holds only because of that.
- `Sched.Kernel.SysAlarm`: does not model 32-bit overflow of `jiffies + HZ*seconds`, because `long` is unbounded here.
- `Sched.Kernel.DoTimer`: does not model 32-bit wrap-around of `utime` and `stime`; they are unbounded counters.
- `Sched.Kernel.SysNice`: does not model 32-bit overflow of `priority - increment`; an unbounded priority is assumed.
- `WaitChain.LifoRelease`: states the release order for sleepers blocked by sleep_on only. The release order for interruptible_sleep_on, where sweeps and explicit wake-ups interleave, is only stated one step at a time, by `Sched.Kernel.InterruptibleSleepOnResume`.
- The memory layout (`task_union`, `init_task`, `user_stack`, `stack_start`, `LATCH`) and the declarations of `mem_use`, `timer_interrupt` and `system_call` (kernel/sched.c:15-40) are not part of this model.
