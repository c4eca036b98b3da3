/** kernel/sched.c: the task table and the globals `current`,
    `last_task_used_math` and `jiffies` as one kernel object, with the
    scheduler, the wait primitives, the timer tick, the FPU hand-off and the
    small system calls as its methods. */
module Sched {
  import opened TaskTable
  import opened SchedPolicy
  import opened WaitChain

  /** A wait channel: the `struct task_struct *` cell whose address a
      sleeper passes to sleep_on, interruptible_sleep_on and wake_up.  A
      null `Channel?` is the null `struct task_struct **`. */
  class Channel {
    var head: Option<Slot>

    constructor ()
      ensures head == None
    {
      head := None;
    }
  }

  class Kernel {
    /** task[NR_TASKS]: None is a NULL slot. */
    var task: array<Option<Task>>
    /** The running task. */
    var current: Slot
    /** The task whose state the FPU holds, if any. */
    var lastTaskUsedMath: Option<Slot>
    /** Ticks since boot; advanced by the timer interrupt, outside this file. */
    var jiffies: int
    /** The live FPU state. */
    var fpu: FpuImage

    ghost predicate Valid()
      reads this, task
    {
      task.Length == NR_TASKS && TableOk(task[..]) && task[current].Some? &&
      (lastTaskUsedMath.Some? ==> task[lastTaskUsedMath.value].Some?) &&
      jiffies >= 0
    }

    /** The channel's head, if any, is an occupied slot. */
    ghost predicate Holds(p: Channel)
      requires Valid()
      reads this, task, p
    {
      p.head.Some? ==> task[p.head.value].Some?
    }

    /** The boot state: only the idle task, which is current; no FPU owner. */
    constructor (idle: Task)
      requires TaskOk(idle)
      ensures Valid() && fresh(task)
      ensures task[0] == Some(idle) && forall i :: 0 < i < NR_TASKS ==> task[i].None?
      ensures current == 0 && lastTaskUsedMath == None && jiffies == 0
    {
      task := new Option<Task>[NR_TASKS](i => if i == 0 then Some(idle) else None);
      current := 0;
      lastTaskUsedMath := None;
      jiffies := 0;
      fpu := FNINIT_IMAGE;
    }

    // -------------------------------------------------------------------
    // schedule()

    /** The first loop of schedule(): alarms and signal wake-ups. */
    method SweepSignals()
      requires Valid()
      modifies task
      ensures Valid()
      ensures task[..] == SweepTable(old(task[..]), jiffies)
    {
      ghost var goal := SweepTable(task[..], jiffies);
      var i := NR_TASKS - 1;
      while i > 0
        invariant 0 <= i < NR_TASKS
        invariant forall j :: 0 <= j <= i ==> task[j] == old(task[j])
        invariant forall j :: i < j < NR_TASKS ==> task[j] == goal[j]
      {
        if task[i].Some? {
          var t := SweepTask(task[i].value);
          task[i] := Some(t);
        }
        i := i - 1;
      }
      assert task[..] == goal;
    }

    /** The body of the sweep for one occupied slot. */
    method SweepTask(t0: Task) returns (t: Task)
      ensures t == SweepSlot(t0, jiffies)
    {
      t := t0;
      if t.alarm != 0 && t.alarm < jiffies {
        t := t.(signal := RaiseSigalrm(t.signal), alarm := 0);
      }
      if t.signal != 0 && t.state == Interruptible {
        t := t.(state := Running);
      }
    }

    /** The inner scan of schedule(): from slot NR_TASKS-1 down to 1, keep
        the runnable task whose counter beats the best so far, starting from
        c = -1 and next = 0. */
    method Scan() returns (next: Slot, c: int)
      requires Valid()
      ensures Selects(task[..], next)
      ensures c == (if next == 0 then -1 else Credit(task[next]))
    {
      c := -1;
      next := 0;
      var i := NR_TASKS;
      while i > 1
        invariant 1 <= i <= NR_TASKS
        invariant next == 0 || i <= next
        invariant next == 0 ==> c == -1 && forall j :: i <= j < NR_TASKS ==> !Runnable(task[j])
        invariant next != 0 ==> Runnable(task[next]) && c == Credit(task[next])
        invariant next != 0 ==> forall j :: i <= j < next && Runnable(task[j]) ==> Credit(task[j]) <= c
        invariant next != 0 ==> forall j :: next < j < NR_TASKS && Runnable(task[j]) ==> Credit(task[j]) < c
      {
        i := i - 1;
        if task[i].None? {
          continue;
        }
        if task[i].value.state == Running && task[i].value.counter > c {
          c, next := task[i].value.counter, i;
        }
      }
    }

    /** The aging loop of schedule(). */
    method AgeCounters()
      requires Valid()
      modifies task
      ensures Valid()
      ensures task[..] == AgeTable(old(task[..]))
    {
      var i := NR_TASKS - 1;
      while i > 0
        invariant 0 <= i < NR_TASKS
        invariant forall j :: 0 <= j <= i ==> task[j] == old(task[j])
        invariant forall j :: i < j < NR_TASKS ==> task[j] == AgeTable(old(task[..]))[j]
      {
        if task[i].Some? {
          var t := task[i].value;
          task[i] := Some(t.(counter := t.counter / 2 + t.priority));
        }
        i := i - 1;
      }
    }

    /** schedule(): sweep, then scan and age until the best runnable counter
        is not 0, then switch to the chosen task.  The register and stack
        transfer of switch_to is `current := next`. */
    method Schedule()
      requires Valid()
      modifies this`current, task
      ensures Valid()
      ensures task[..] == Scheduled(old(task[..]), jiffies)
      ensures Selects(task[..], current)
      ensures current != 0 ==> Credit(task[current]) > 0
    {
      SweepSignals();
      ghost var swept := task[..];
      ghost var aged := false;
      var next: Slot, c: int := 0, -1;
      while true
        invariant Valid()
        invariant task[..] == if aged then AgeTable(swept) else swept
        invariant TableOk(swept) && aged ==> Exhausted(swept)
        decreases if aged then 0 else 1
      {
        next, c := Scan();
        if c != 0 {
          break;
        }
        if aged {
          assert false;
        }
        assert Exhausted(swept);
        AgeCounters();
        aged := true;
      }
      current := next;
    }

    /** `current->state = s; schedule();`, the blocking step shared by
        sys_pause and the sleep primitives. */
    method Block(s: State)
      requires Valid()
      modifies this`current, task
      ensures Valid()
      ensures task[..] == Scheduled(SetState(old(task[..]), old(current), s), jiffies)
      ensures Selects(task[..], current)
      ensures current != 0 ==> Credit(task[current]) > 0
    {
      task[current] := Some(task[current].value.(state := s));
      Schedule();
    }

    /** sys_pause: sleep interruptibly until a signal or a wake-up. */
    method SysPause() returns (r: int)
      requires Valid()
      modifies this`current, task
      ensures Valid()
      ensures task[..] == Scheduled(SetState(old(task[..]), old(current), Interruptible), jiffies)
      ensures Selects(task[..], current)
      ensures r == 0
    {
      Block(Interruptible);
      r := 0;
    }

    // -------------------------------------------------------------------
    // Wait channels.  A sleep is split at its call of schedule(): the block
    // step returns the frame's `tmp`, and the resume step, run once the
    // sleeper is current again, takes it back.

    /** sleep_on up to and including schedule(): nothing for a null channel;
        otherwise the caller replaces the head, keeping the old one in
        `tmp`, and blocks uninterruptibly.  The idle task may not sleep. */
    method SleepOnBlock(p: Channel?) returns (tmp: Option<Slot>)
      requires Valid()
      requires p != null ==> current != 0
      modifies this`current, task, p
      ensures Valid()
      ensures p == null ==> tmp == None && current == old(current) && task[..] == old(task[..])
      ensures p != null ==> tmp == old(p.head) && p.head == Some(old(current)) && Holds(p)
      ensures p != null ==> (p.head, tmp) == Push(old(p.head), old(current))
      ensures p != null ==>
        task[..] == Scheduled(SetState(old(task[..]), old(current), Uninterruptible), jiffies) &&
        Selects(task[..], current)
    {
      tmp := None;
      if p == null {
        return;
      }
      tmp := p.head;
      p.head := Some(current);
      Block(Uninterruptible);
    }

    /** The rest of sleep_on: wake the sleeper this one displaced. */
    method SleepOnResume(tmp: Option<Slot>)
      requires Valid()
      requires tmp.Some? ==> task[tmp.value].Some?
      modifies task
      ensures Valid()
      ensures task[..] == Release(old(task[..]), tmp)
    {
      if tmp.Some? {
        task[tmp.value] := Some(task[tmp.value].value.(state := Running));
      }
    }

    /** interruptible_sleep_on up to and including its first schedule(). */
    method InterruptibleSleepOnBlock(p: Channel?) returns (tmp: Option<Slot>)
      requires Valid()
      requires p != null ==> current != 0
      modifies this`current, task, p
      ensures Valid()
      ensures p == null ==> tmp == None && current == old(current) && task[..] == old(task[..])
      ensures p != null ==> tmp == old(p.head) && p.head == Some(old(current)) && Holds(p)
      ensures p != null ==> (p.head, tmp) == Push(old(p.head), old(current))
      ensures p != null ==>
        task[..] == Scheduled(SetState(old(task[..]), old(current), Interruptible), jiffies) &&
        Selects(task[..], current)
    {
      tmp := None;
      if p == null {
        return;
      }
      tmp := p.head;
      p.head := Some(current);
      Block(Interruptible);
    }

    /** What interruptible_sleep_on does each time schedule() returns to the
        caller.  If the head is another task, it is made runnable and the
        caller blocks again (`goto repeat`, done is false).  Otherwise the
        channel is emptied and the displaced sleeper woken (done is true). */
    method InterruptibleSleepOnResume(p: Channel, tmp: Option<Slot>) returns (done: bool)
      requires Valid() && Holds(p)
      requires tmp.Some? ==> task[tmp.value].Some?
      modifies this`current, task, p
      ensures Valid() && Holds(p)
      ensures done <==> !(old(p.head).Some? && old(p.head).value != old(current))
      ensures !done ==>
        p.head == old(p.head) &&
        task[..] == Scheduled(SetState(Release(old(task[..]), old(p.head)), old(current), Interruptible), jiffies) &&
        Selects(task[..], current)
      ensures done ==> p.head == None && current == old(current) && task[..] == Release(old(task[..]), tmp)
      ensures tmp.Some? ==> task[tmp.value].Some?
    {
      if p.head.Some? && p.head.value != current {
        var h := p.head.value;
        task[h] := Some(task[h].value.(state := Running));
        Block(Interruptible);
        return false;
      }
      p.head := None;
      SleepOnResume(tmp);
      done := true;
    }

    /** wake_up: make the head runnable and empty the channel; nothing for a
        null or empty channel. */
    method WakeUp(p: Channel?)
      requires Valid() && (p != null ==> Holds(p))
      modifies task, p
      ensures Valid()
      ensures p == null ==> task[..] == old(task[..])
      ensures p != null ==> p.head == None && task[..] == Release(old(task[..]), old(p.head))
    {
      if p != null && p.head.Some? {
        var h := p.head.value;
        task[h] := Some(task[h].value.(state := Running));
        p.head := None;
      }
    }

    // -------------------------------------------------------------------
    // do_timer()

    /** The timer tick: charge it to the current task, and when its slice is
        used up and the tick interrupted user mode (cpl != 0), reschedule. */
    method DoTimer(cpl: int)
      requires Valid()
      modifies this`current, task
      ensures Valid()
      ensures var charged := old(task[..])[old(current) := Some(ChargeTick(old(task[current]).value, cpl))];
        if Preempts(old(task[current]).value, cpl) then
          task[..] == Scheduled(charged, jiffies) && Selects(task[..], current)
        else
          task[..] == charged && current == old(current)
    {
      var t := task[current].value;
      if cpl != 0 {
        t := t.(utime := t.utime + 1);
      } else {
        t := t.(stime := t.stime + 1);
      }
      t := t.(counter := t.counter - 1);
      if t.counter > 0 {
        task[current] := Some(t);
        return;
      }
      t := t.(counter := 0);
      task[current] := Some(t);
      if cpl == 0 {
        return;
      }
      Schedule();
    }

    // -------------------------------------------------------------------
    // math_state_restore()

    /** The FPU trap: save the FPU into its previous owner, then load the
        current task's saved state, or reset the FPU on the task's first use,
        and make the current task the owner. */
    method MathStateRestore()
      requires Valid()
      modifies this`lastTaskUsedMath, this`fpu, task
      ensures Valid()
      ensures lastTaskUsedMath == Some(current)
      ensures var saved := SaveFpu(old(task[..]), old(lastTaskUsedMath), old(fpu));
        var t := saved[current].value;
        if t.usedMath then
          fpu == t.i387 && task[..] == saved
        else
          fpu == FNINIT_IMAGE && task[..] == saved[current := Some(t.(usedMath := true))]
      ensures task[current].value.usedMath
      ensures old(lastTaskUsedMath).Some? ==> task[old(lastTaskUsedMath).value].value.i387 == old(fpu)
    {
      if lastTaskUsedMath.Some? {
        var o := lastTaskUsedMath.value;
        task[o] := Some(task[o].value.(i387 := fpu));
      }
      var t := task[current].value;
      if t.usedMath {
        fpu := t.i387;
      } else {
        fpu := FNINIT_IMAGE;
        task[current] := Some(t.(usedMath := true));
      }
      lastTaskUsedMath := Some(current);
    }

    // -------------------------------------------------------------------
    // System calls

    /** sys_alarm: set or cancel the current task's alarm; returns `seconds`. */
    method SysAlarm(seconds: int) returns (r: int)
      requires Valid()
      modifies task
      ensures Valid()
      ensures task[..] == old(task[..])[current := Some(old(task[current]).value.(alarm := AlarmDeadline(jiffies, seconds)))]
      ensures r == seconds
    {
      var t := task[current].value;
      task[current] := Some(t.(alarm := if seconds > 0 then jiffies + HZ * seconds else 0));
      r := seconds;
    }

    /** sys_nice: lower the current task's priority by `increment` unless
        that would make it non-positive; returns 0. */
    method SysNice(increment: int) returns (r: int)
      requires Valid()
      modifies task
      ensures Valid()
      ensures task[..] == old(task[..])[current := Some(old(task[current]).value.(priority := NicePriority(old(task[current]).value.priority, increment)))]
      ensures r == 0
    {
      var t := task[current].value;
      if t.priority - increment > 0 {
        task[current] := Some(t.(priority := t.priority - increment));
      }
      r := 0;
    }

    /** sys_signal: for one of the catchable signals, install `addr` as its
        handler and `restorer` as the task's restorer and return the previous
        handler; for any other number return -1 and change nothing. */
    method SysSignal(signum: int, addr: int, restorer: int) returns (r: int)
      requires Valid()
      modifies task
      ensures Valid()
      ensures !Catchable(signum) ==> r == -1 && task[..] == old(task[..])
      ensures Catchable(signum) ==>
        var t := old(task[current]).value;
        r == t.sigFn[signum - 1] &&
        task[..] == old(task[..])[current := Some(t.(sigFn := t.sigFn[signum - 1 := addr], sigRestorer := restorer))]
    {
      if Catchable(signum) {
        var t := task[current].value;
        r := t.sigFn[signum - 1];
        task[current] := Some(t.(sigFn := t.sigFn[signum - 1 := addr], sigRestorer := restorer));
      } else {
        r := -1;
      }
    }
  }
}
