/** The implicit waiter chain of a wait channel.  A channel holds only the
    latest sleeper; every sleeper keeps, in the `tmp` of its sleep_on frame,
    the head it displaced, and wakes that one when it resumes.  This module
    follows the chain through a wake_up and the resumes that cascade from it. */
module WaitChain {
  import opened TaskTable

  /** No slot is twice in `ws`. */
  predicate Distinct(ws: seq<Slot>)
  {
    forall a, b :: 0 <= a < b < |ws| ==> ws[a] != ws[b]
  }

  /** The `tmp` of the k-th sleeper, oldest first: the sleeper before it, or
      for the oldest one whatever the channel held before (`base`). */
  function Saved(ws: seq<Slot>, base: Option<Slot>, k: int): (r: Option<Slot>)
    requires 0 <= k < |ws|
  {
    if k == 0 then base else Some(ws[k - 1])
  }

  /** `tmp = *p; *p = current;` of sleep_on and interruptible_sleep_on on a
      channel whose head is `head`: the new head and the saved `tmp`. */
  function Push(head: Option<Slot>, w: Slot): (Option<Slot>, Option<Slot>)
  {
    (Some(w), head)
  }

  /** The channel head and the `tmp` of each sleeper after the sleepers ws
      (oldest first) have blocked one after another on a channel that held
      `base`, with no wake_up between them. */
  function Sleeps(base: Option<Slot>, ws: seq<Slot>): (r: (Option<Slot>, seq<Option<Slot>>))
    ensures |r.1| == |ws|
    decreases |ws|
  {
    if ws == [] then (base, [])
    else
      var prev := Sleeps(base, ws[..|ws| - 1]);
      var step := Push(prev.0, ws[|ws| - 1]);
      (step.0, prev.1 + [step.1])
  }

  /** Successive sleeps build the chain `Unwind` follows: the head is the
      newest sleeper, and the j-th sleeper's `tmp` is `Saved(ws, base, j)`,
      the sleeper that blocked just before it. */
  lemma {:induction false} SleepsSaveChain(base: Option<Slot>, ws: seq<Slot>)
    ensures Sleeps(base, ws).0 == if ws == [] then base else Some(ws[|ws| - 1])
    ensures forall j :: 0 <= j < |ws| ==> Sleeps(base, ws).1[j] == Saved(ws, base, j)
    decreases |ws|
  {
    if ws != [] {
      var init := ws[..|ws| - 1];
      SleepsSaveChain(base, init);
      forall j | 0 <= j < |ws|
        ensures Sleeps(base, ws).1[j] == Saved(ws, base, j)
      {
        if j < |init| {
          assert Saved(init, base, j) == Saved(ws, base, j);
        }
      }
    }
  }

  /** The table after the sleepers ws[k..] have run the tail of sleep_on,
      newest first, each releasing its `tmp`. */
  function Unwind(ts: seq<Option<Task>>, ws: seq<Slot>, base: Option<Slot>, k: int): (r: seq<Option<Task>>)
    requires 0 <= k <= |ws|
    ensures SameSlots(ts, r)
    decreases |ws| - k
  {
    if k == |ws| then ts else Release(Unwind(ts, ws, base, k + 1), Saved(ws, base, k))
  }

  /** Once the sleepers ws[k..] have resumed, exactly the ones they saved,
      ws[k-1 .. |ws|-2] (and `base` when k is 0), have been made runnable;
      every other slot is as it was. */
  lemma {:induction false} UnwindReleasesSaved(ts: seq<Option<Task>>, ws: seq<Slot>, base: Option<Slot>, k: int)
    requires 0 <= k <= |ws| && |ts| == NR_TASKS && Distinct(ws)
    requires forall j :: 0 <= j < |ws| ==> ts[ws[j]].Some?
    requires base.Some? ==> ts[base.value].Some? && base.value !in ws
    ensures forall j :: 0 <= j < |ws| - 1 && k <= j + 1 ==> Runnable(Unwind(ts, ws, base, k)[ws[j]])
    ensures forall j :: 0 <= j < |ws| && (j + 1 < k || j == |ws| - 1) ==>
      Unwind(ts, ws, base, k)[ws[j]] == ts[ws[j]]
    ensures base.Some? && k == 0 < |ws| ==> Runnable(Unwind(ts, ws, base, k)[base.value])
    ensures base.Some? && k > 0 ==> Unwind(ts, ws, base, k)[base.value] == ts[base.value]
    ensures forall i :: 0 <= i < |ts| && i !in ws && (base.None? || i != base.value) ==>
      Unwind(ts, ws, base, k)[i] == ts[i]
    decreases |ws| - k
  {
    if k < |ws| {
      UnwindReleasesSaved(ts, ws, base, k + 1);
      var u := Unwind(ts, ws, base, k + 1);
      assert Unwind(ts, ws, base, k) == Release(u, Saved(ws, base, k));
      if k > 0 {
        assert Runnable(Unwind(ts, ws, base, k)[ws[k - 1]]);
        forall j | 0 <= j < |ws| && j != k - 1
          ensures Unwind(ts, ws, base, k)[ws[j]] == u[ws[j]]
        {
          assert ws[j] != ws[k - 1];
        }
      }
    }
  }

  /** LIFO release.  The sleepers ws (oldest first) are blocked
      uninterruptibly on one channel, whose head is the newest of them.
      After one wake_up and the resumes of the newest |ws| - k sleepers, the
      runnable ones are exactly ws[k-1 ..]: each sleeper is released only by
      the one that blocked after it, in strict reverse order of arrival. */
  lemma LifoRelease(ts: seq<Option<Task>>, ws: seq<Slot>, base: Option<Slot>, k: int)
    requires 0 < |ws| && 0 <= k <= |ws| && |ts| == NR_TASKS && Distinct(ws)
    requires forall j :: 0 <= j < |ws| ==> ts[ws[j]].Some? && ts[ws[j]].value.state == Uninterruptible
    requires base.Some? ==> ts[base.value].Some? && base.value !in ws
    ensures var u := Unwind(Release(ts, Some(ws[|ws| - 1])), ws, base, k);
      forall j :: 0 <= j < |ws| ==> (Runnable(u[ws[j]]) <==> k <= j + 1)
  {
    var w := Release(ts, Some(ws[|ws| - 1]));
    UnwindReleasesSaved(w, ws, base, k);
  }
}
