/** The scheduling policy of kernel/sched.c as functions on the task table:
    the signal sweep, aging, the choice of the next task, tick accounting and
    the small system calls.  The imperative code in module Sched is proved
    against these definitions. */
module SchedPolicy {
  import opened TaskTable

  // ---------------------------------------------------------------------
  // The signal sweep of schedule()

  /** An alarm is set and its deadline lies strictly before `now`. */
  predicate AlarmExpired(t: Task, now: int)
  {
    t.alarm != 0 && t.alarm < now
  }

  /** `signal |= 1 << (SIGALRM - 1)`: SIGALRM becomes pending and no other
      bit changes. */
  function RaiseSigalrm(signal: bv32): (r: bv32)
    ensures r & SIGALRM_MASK != 0 && r != 0
    ensures r & !SIGALRM_MASK == signal & !SIGALRM_MASK
  {
    signal | SIGALRM_MASK
  }

  /** One task's part of the sweep: an expired alarm raises SIGALRM and is
      disarmed; a pending signal makes an interruptible sleeper runnable. */
  function SweepSlot(t: Task, now: int): (r: Task)
    ensures AlarmExpired(t, now) ==>
      r.alarm == 0 && r.signal == RaiseSigalrm(t.signal)
    ensures !AlarmExpired(t, now) ==> r.alarm == t.alarm && r.signal == t.signal
    ensures r.state == (if t.state == Interruptible && r.signal != 0 then Running else t.state)
    ensures r == t.(state := r.state, signal := r.signal, alarm := r.alarm)
    ensures TaskOk(t) ==> TaskOk(r)
  {
    var a := if AlarmExpired(t, now) then t.(signal := RaiseSigalrm(t.signal), alarm := 0) else t;
    if a.signal != 0 && a.state == Interruptible then a.(state := Running) else a
  }

  /** The sweep over slots NR_TASKS-1 down to 1; slot 0 is never looked at. */
  function SweepTable(ts: seq<Option<Task>>, now: int): (r: seq<Option<Task>>)
    ensures SameSlots(ts, r)
    ensures |ts| > 0 ==> r[0] == ts[0]
    ensures forall i :: 0 < i < |ts| && ts[i].Some? ==> r[i] == Some(SweepSlot(ts[i].value, now))
    ensures forall i :: 0 <= i < |ts| && ts[i].Some? ==>
      r[i].value.state == ts[i].value.state ||
      (ts[i].value.state == Interruptible && r[i].value.state == Running)
    ensures TableOk(ts) ==> TableOk(r)
  {
    seq(|ts|, i requires 0 <= i < |ts| =>
      if i == 0 || ts[i].None? then ts[i] else Some(SweepSlot(ts[i].value, now)))
  }

  /** A signal-driven wake: an interruptible task whose alarm is due at tick
      5 is untouched by a sweep at tick 5 (the test is strict) and is made
      runnable, with SIGALRM pending, by a sweep at tick 6. */
  lemma AlarmWakesInterruptibleSleeper(t: Task)
    requires t.state == Interruptible && t.alarm == 5 && t.signal == 0
    ensures SweepSlot(t, 5) == t
    ensures var r := SweepSlot(t, 6);
      r.state == Running && r.alarm == 0 && r.signal == SIGALRM_MASK
  {
  }

  // ---------------------------------------------------------------------
  // Aging

  /** `counter = (counter >> 1) + priority`; on a two's-complement integer
      the arithmetic shift is floor division by 2, which is Dafny's `/ 2`. */
  function AgeSlot(t: Task): (r: Task)
    ensures r == t.(counter := r.counter)
    ensures TaskOk(t) ==> TaskOk(r) && r.counter >= t.priority
    ensures t.counter < 2 * t.priority ==> r.counter < 2 * t.priority
  {
    t.(counter := t.counter / 2 + t.priority)
  }

  /** The aging pass over slots NR_TASKS-1 down to 1, whatever their state. */
  function AgeTable(ts: seq<Option<Task>>): (r: seq<Option<Task>>)
    ensures SameSlots(ts, r)
    ensures |ts| > 0 ==> r[0] == ts[0]
    ensures forall i :: 0 < i < |ts| && ts[i].Some? ==> r[i] == Some(AgeSlot(ts[i].value))
    ensures TableOk(ts) ==> TableOk(r)
  {
    seq(|ts|, i requires 0 <= i < |ts| =>
      if i == 0 || ts[i].None? then ts[i] else Some(AgeSlot(ts[i].value)))
  }

  // ---------------------------------------------------------------------
  // Choosing the next task

  /** `next` is what the scan of schedule() yields on `ts`: 0 when no slot
      1..NR_TASKS-1 is runnable; otherwise a runnable slot with the largest
      counter, and the highest such slot, since the scan runs downwards and
      a later candidate replaces the best only when strictly larger. */
  ghost predicate Selects(ts: seq<Option<Task>>, next: int)
  {
    0 <= next < |ts| &&
    if next == 0 then
      forall i :: 0 < i < |ts| ==> !Runnable(ts[i])
    else
      Runnable(ts[next]) &&
      (forall i :: 0 < i < next && Runnable(ts[i]) ==> Credit(ts[i]) <= Credit(ts[next])) &&
      (forall i :: next < i < |ts| && Runnable(ts[i]) ==> Credit(ts[i]) < Credit(ts[next]))
  }

  /** Some slot 1..NR_TASKS-1 is runnable and every runnable one has used up
      its slice: the case in which schedule() ages the table. */
  ghost predicate Exhausted(ts: seq<Option<Task>>)
  {
    (exists i :: 0 < i < |ts| && Runnable(ts[i])) &&
    forall i :: 0 < i < |ts| && Runnable(ts[i]) ==> Credit(ts[i]) == 0
  }

  /** The table left by schedule(): swept, then aged once if exhausted. */
  ghost function Scheduled(ts: seq<Option<Task>>, now: int): (r: seq<Option<Task>>)
    ensures SameSlots(ts, r)
    ensures |ts| > 0 ==> r[0] == ts[0]
    ensures TableOk(ts) ==> TableOk(r)
    ensures forall i :: 0 <= i < |ts| && ts[i].Some? ==>
      r[i].value.state == ts[i].value.state ||
      (ts[i].value.state == Interruptible && r[i].value.state == Running)
  {
    var s := SweepTable(ts, now);
    if Exhausted(s) then AgeTable(s) else s
  }

  /** At most one slot satisfies Selects: the choice is deterministic. */
  lemma SelectsUnique(ts: seq<Option<Task>>, a: int, b: int)
    requires Selects(ts, a) && Selects(ts, b)
    ensures a == b
  {
  }

  /** Of two runnable slots with equal counters the lower one is never
      chosen: ties go to the higher slot. */
  lemma TieGoesToHigherSlot(ts: seq<Option<Task>>, lo: int, hi: int, next: int)
    requires 0 < lo < hi < |ts| && Runnable(ts[lo]) && Runnable(ts[hi])
    requires Credit(ts[lo]) == Credit(ts[hi])
    requires Selects(ts, next)
    ensures next != lo && next != 0
  {
  }

  /** One aging pass on an exhausted table gives every occupied slot
      1..NR_TASKS-1 a positive slice, so the table is no longer exhausted
      and the next scan chooses a runnable task with a positive slice. */
  lemma AgingRestoresCredit(ts: seq<Option<Task>>)
    requires TableOk(ts) && Exhausted(ts)
    ensures forall i :: 0 < i < |ts| && ts[i].Some? ==> Credit(AgeTable(ts)[i]) > 0
    ensures !Exhausted(AgeTable(ts))
    ensures forall next :: Selects(AgeTable(ts), next) ==> next != 0 && Credit(AgeTable(ts)[next]) > 0
  {
  }

  // ---------------------------------------------------------------------
  // Tick accounting of do_timer()

  /** The accounting half of do_timer: one tick charged to user or kernel
      time, and the slice decremented but never below 0. */
  function ChargeTick(t: Task, cpl: int): (r: Task)
    ensures r == t.(utime := r.utime, stime := r.stime, counter := r.counter)
    ensures r.utime + r.stime == t.utime + t.stime + 1
    ensures cpl != 0 ==> r.utime == t.utime + 1
    ensures cpl == 0 ==> r.stime == t.stime + 1
    ensures r.counter >= 0
    ensures t.counter > 1 ==> r.counter == t.counter - 1
    ensures t.counter <= 1 ==> r.counter == 0
    ensures TaskOk(t) ==> TaskOk(r)
  {
    var u := if cpl != 0 then t.(utime := t.utime + 1) else t.(stime := t.stime + 1);
    if u.counter - 1 > 0 then u.(counter := u.counter - 1) else u.(counter := 0)
  }

  /** do_timer calls schedule() exactly when the slice is used up and the
      tick interrupted user mode. */
  predicate Preempts(t: Task, cpl: int)
  {
    cpl != 0 && !(t.counter - 1 > 0)
  }

  /** Three ticks: counter 2 in user mode goes to 1 without a
      reschedule; counter 1 in user mode goes to 0 and reschedules; counter 1
      in kernel mode goes to 0 without a reschedule. */
  lemma TickExamples(t: Task)
    ensures t.counter == 2 ==> ChargeTick(t, 3).counter == 1 && !Preempts(t, 3)
    ensures t.counter == 1 ==> ChargeTick(t, 3).counter == 0 && Preempts(t, 3)
    ensures t.counter == 1 ==> ChargeTick(t, 0).counter == 0 && !Preempts(t, 0)
  {
  }

  // ---------------------------------------------------------------------
  // System calls

  /** The deadline sys_alarm stores: `seconds` whole seconds after `now`,
      or 0 (no alarm) when `seconds` is not positive. */
  function AlarmDeadline(now: int, seconds: int): (r: int)
    requires now >= 0
    ensures (r == 0) <==> (seconds <= 0)
    ensures seconds > 0 ==> r > now && (r - now) % HZ == 0 && (r - now) / HZ == seconds
  {
    if seconds > 0 then now + HZ * seconds else 0
  }

  /** The priority after sys_nice: lowered by `increment` when the result
      stays positive, unchanged otherwise. */
  function NicePriority(priority: int, increment: int): (r: int)
    ensures priority > 0 ==> r > 0
    ensures priority - increment > 0 ==> r == priority - increment
    ensures priority - increment <= 0 ==> r == priority
  {
    if priority - increment > 0 then priority - increment else priority
  }

  /** The signals for which sys_signal installs a handler. */
  predicate Catchable(signum: int)
    ensures Catchable(signum) ==> 1 <= signum <= NSIG
    ensures signum == SIGKILL || signum == SIGTERM ==> !Catchable(signum)
  {
    signum in {SIGHUP, SIGINT, SIGQUIT, SIGILL, SIGTRAP, SIGABRT, SIGFPE,
               SIGUSR1, SIGSEGV, SIGUSR2, SIGPIPE, SIGALRM, SIGCHLD}
  }

  // ---------------------------------------------------------------------
  // The FPU hand-off of math_state_restore()

  /** `fnsave` into the previous owner's record, when there is one. */
  function SaveFpu(ts: seq<Option<Task>>, owner: Option<Slot>, hw: FpuImage): (r: seq<Option<Task>>)
    ensures SameSlots(ts, r)
    ensures TableOk(ts) ==> TableOk(r)
    ensures owner.Some? && owner.value < |ts| && ts[owner.value].Some? ==>
      r[owner.value] == Some(ts[owner.value].value.(i387 := hw))
    ensures forall j :: 0 <= j < |ts| && (owner.None? || j != owner.value) ==> r[j] == ts[j]
  {
    match owner
    case None => ts
    case Some(o) =>
      if o < |ts| && ts[o].Some? then ts[o := Some(ts[o].value.(i387 := hw))] else ts
  }
}
